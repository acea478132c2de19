# Interval workout session model

A Dafny model of the session state machine of a browser interval-training app
(40-second exercises, 20-second rests, a 20-second getting-ready countdown).
The model follows the code as it behaves, including its less obvious turns:

- A countdown that reaches zero during an exercise period always enters rest,
  the last exercise included; the timer's completion fires only at the end of
  the rest that follows the last exercise.
- The tick never reads `isGettingReady`, and within a workout only
  `startExercises` lowers it (`stopWorkout` also clears it, but ends the
  workout). The getting-ready screen therefore runs the whole workout under its own
  timer, and `startExercises` is reached only through the completion branch.
  The exercise screen then opens with a 40-second countdown while still
  resting at the last index, and completes 41 firings later into the rating
  form (`ExerciseDisplay.ScreenWholeWorkout`).
- `skipExercise` at the last index keeps the index but still clears the rest
  flag and restarts a 40-second period.
- `startWorkout` accepts an empty exercise list.

Modules, one per source file or component:

- `Types`: the `Exercise`, `Session` and `WorkoutState` records.
- `WorkoutStore`: the baseline state and the nine store commands as pure
  functions, with a `Command` type and `Apply` to dispatch them.
- `Timer`: one firing of the one-second interval as `Tick(s)`, returning the
  next state and whether the completion handler was called instead; runs of
  ticks; the `m:ss` rendering, with a reader that turns the text back into the
  countdown.
- `ExerciseDisplay`: the workout screen: its views, the controls each view
  offers, and what each timer firing, click and notes edit does.
- `Permutations`: `Shuffle(xs, draws)`, which stands for a
  `sort(() => Math.random() - 0.5)` call. The draws pick the element to put
  next, so every result is a permutation of `xs` and every permutation of `xs`
  is the result of some draws.
- `Selection`: the exercise picking of the "Start New Workout" button.
- `App`: the session history, the repeat button, and one step of the whole
  application.

Inputs the source takes from the environment are parameters: the catalog, the
draws of each shuffle, and the id (`crypto.randomUUID`) and timestamp
(`new Date().toISOString()`) of a saved session.

## Model

| member | source | states |
|---|---|---|
| WorkoutStore.StartWorkout | src/store/workoutStore.ts:19-30 | a fresh session on the given list: index 0, active, getting ready, 20 seconds, neither resting nor paused |
| WorkoutStore.StartIgnoresPriorState | src/store/workoutStore.ts:19-30 | starting gives the same state whatever state came before, and keeps the list as given |
| WorkoutStore.StartExercises | src/store/workoutStore.ts:31-38 | leaves the getting-ready phase with 40 seconds; index, rest flag, list, active and paused flags unchanged |
| WorkoutStore.PauseWorkout | src/store/workoutStore.ts:39-40 | raises the pause flag and the state is otherwise unchanged |
| WorkoutStore.ResumeWorkout | src/store/workoutStore.ts:41-42 | lowers the pause flag and the state is otherwise unchanged |
| WorkoutStore.PauseResumeLaws | src/store/workoutStore.ts:39-42 | pause and resume are idempotent; resume undoes pause exactly when the state was not paused, and pause undoes resume exactly when it was |
| WorkoutStore.StopWorkout | src/store/workoutStore.ts:43 | from any state: inactive, unpaused, not getting ready, not resting, empty list, index 0, 40 seconds |
| WorkoutStore.StopIsBaseline | src/store/workoutStore.ts:5-13 | stopping gives exactly the initial state, after any earlier command |
| Timer.BaselineIsIdle | src/store/workoutStore.ts:5-13 | the initial state is inactive, so any number of ticks leaves it as it is and never completes |
| WorkoutStore.NextExercise | src/store/workoutStore.ts:44-52 | index plus one with no bound check, not resting, 40 seconds, same list and flags |
| WorkoutStore.NextInRangeIff | src/store/workoutStore.ts:44-52 | on a non-empty list the next index is in range exactly when the index was below the last |
| WorkoutStore.SkipExercise | src/store/workoutStore.ts:53-64 | the index advances by one exactly when it is below the last and stays put exactly at or past the last; either way not resting and 40 seconds |
| WorkoutStore.SkipBelowLastIsNext | src/store/workoutStore.ts:53-64 | below the last index, skip is the same as moving to the next exercise |
| WorkoutStore.IsLastExercise | src/store/workoutStore.ts:55 | an empty list counts as at its last exercise; with the index in range, it is the last exactly when it equals length - 1 |
| WorkoutStore.SkipAtLastOnlyResets | src/store/workoutStore.ts:55-62 | at or past the last index skip keeps the index, and leaves the state unchanged exactly when it is already in a fresh 40-second exercise period |
| WorkoutStore.SetTimeRemaining | src/store/workoutStore.ts:65-66 | sets the countdown to the given value and changes no other field |
| WorkoutStore.SetTimeLaws | src/store/workoutStore.ts:65-66 | the second of two settings wins; setting the current value changes nothing |
| WorkoutStore.ToggleRest | src/store/workoutStore.ts:67-74 | flips the rest flag; 20 seconds on entering rest, 40 on leaving it; nothing else changes |
| WorkoutStore.ToggleRestTwice | src/store/workoutStore.ts:67-74 | toggling twice restores the rest flag, and the whole state exactly when the countdown held its period's length |
| WorkoutStore.Apply | src/store/workoutStore.ts:19-74 | only start (which installs the given list) and stop (which clears it) change the exercise list, and only they change the active flag |
| WorkoutStore.CommandsPreserveWellformed | src/store/workoutStore.ts:19-74 | every command keeps the index in range and the countdown in 0..40, except an unguarded next past the last index or a countdown set outside 0..40 |
| Timer.Tick | src/components/Timer.tsx:12-31 | completes exactly when running at zero while resting at the last index; frozen when paused, inactive or completing; the index moves only from a finished rest below the last; wellformed states stay wellformed |
| Timer.TickFrozenWhenNotRunning | src/components/Timer.tsx:12 | an inactive or paused workout does not tick and does not complete |
| Timer.TickCountsDown | src/components/Timer.tsx:15-16 | with time left, one second comes off and nothing else changes |
| Timer.TickEntersRest | src/components/Timer.tsx:27-28 | at zero during an exercise period, rest begins with 20 seconds at any index, the last included |
| Timer.TickLeavesRest | src/components/Timer.tsx:18-26 | at zero during rest below the last index, the next exercise begins with 40 seconds |
| Timer.TickIgnoresGettingReady | src/components/Timer.tsx:14-31 | neither the next state nor completion depends on the getting-ready flag |
| Timer.Run | src/components/Timer.tsx:11-34 | successive firings never change the list, the active, paused or getting-ready flags, and move the index forward by at most one per firing |
| Timer.RunPreservesWellformed | src/components/Timer.tsx:18-26 | any number of ticks keeps the index in range, because the next exercise is taken only below the last |
| Timer.RunFrozenWhenNotRunning | src/components/Timer.tsx:12 | any number of ticks on a paused or inactive workout changes nothing |
| Timer.PauseTicksResume | src/components/Timer.tsx:12 | pause, any number of ticks, resume lands exactly on the state before the pause |
| Timer.Countdown | src/components/Timer.tsx:15-16 | a running countdown at k passes through every value down to zero in k ticks without completing |
| Timer.FirstRest | src/components/Timer.tsx:15-28 | 41 ticks after a start the first rest period is over at index 0 |
| Timer.NextRest | src/components/Timer.tsx:15-28 | from the end of a rest below the last index, 62 ticks reach the end of the next rest |
| Timer.RestOverAfter | src/components/Timer.tsx:15-28 | after 41 + 62 * i ticks from a start, the rest after exercise i is over, with no completion on the way |
| Timer.WholeWorkout | src/components/Timer.tsx:15-28 | on a list of n exercises the first completion comes after 41 + 62 * (n - 1) ticks, resting at the last index with the getting-ready flag still raised |
| Timer.Minutes | src/components/Timer.tsx:36 | the minutes are the countdown divided by 60, rounded down |
| Timer.Seconds | src/components/Timer.tsx:37 | for a non-negative countdown the seconds are below 60 and minutes * 60 + seconds is the countdown; negative countdowns give non-positive seconds |
| Timer.PadStart2 | src/components/Timer.tsx:41 | the text is kept at the end and zeros are put in front up to two characters |
| Timer.Render | src/components/Timer.tsx:36-41 | a non-negative countdown shows as the decimal minutes, a colon, and the tens and units digits of the seconds |
| Timer.RenderRoundTrip | src/components/Timer.tsx:36-41 | reading a non-negative countdown's rendering back gives the countdown |
| Permutations.Shuffle | src/App.tsx:75 | the result holds the same exercises as the input, each as often |
| Permutations.ShuffleReachesEveryPermutation | src/App.tsx:75 | every rearrangement of the input is the result of some draws |
| Permutations.Take | src/App.tsx:76 | `slice(0, n)`: the first min(n, length) elements |
| Selection.FirstCategory | src/App.tsx:60 | the key of an exercise is its first category, and "undefined" when it has none |
| Selection.File | src/App.tsx:60-65 | filing an exercise appends it to the bucket of its key, opening that key at the end of the key list if new, and leaves every other bucket alone |
| Selection.Bucketize | src/App.tsx:59-66 | the bucket keys are distinct and match the map; each bucket is non-empty and holds, in catalog order, exactly the exercises with its first category; every exercise has a bucket |
| Selection.ExactlyOneBucket | src/App.tsx:59-66 | an exercise lies in the bucket of a key exactly when the key is its first category |
| Selection.Quota | src/App.tsx:72 | the per-category quota times the number of categories is at most 40 and the next quota would exceed it |
| Selection.Share | src/App.tsx:74-76 | a category's share holds exactly min(quota, bucket size) exercises, all drawn from its own bucket |
| Selection.Shares | src/App.tsx:73-77 | one share per category, in key order |
| Selection.Concat | src/App.tsx:73-77 | the shares pushed one after another: an exercise is in the result exactly when it is in some share |
| Selection.Balanced | src/App.tsx:73-77 | the shares of all categories together hold at most 40 exercises |
| Selection.CategoryQuota | src/App.tsx:72-77 | the balanced part holds at most floor(40 / #categories) exercises of any one category |
| Selection.CategoryShare | src/App.tsx:72-77 | the balanced part holds exactly min(floor(40 / #categories), bucket size) exercises of each category present |
| Selection.BalancedFacts | src/App.tsx:68-77 | the balanced part draws on the catalog, and repeats nothing when the catalog does not |
| Selection.NotIn | src/App.tsx:82 | the leftovers are exactly the catalog exercises not selected, each as often as in the catalog |
| Selection.Fill | src/App.tsx:80-85 | the top-up takes min(40 - selected, leftovers) shuffled leftovers, and nothing once 40 are selected |
| Selection.FillDrawsLeftovers | src/App.tsx:80-85 | the top-up holds only catalog exercises not already selected, and no more than the free slots |
| Selection.Candidates | src/App.tsx:68-85 | the list before the final shuffle draws on the catalog, holds at most 40, and for a catalog without repeats repeats nothing and holds min(40, catalog size) |
| Selection.SelectExercises | src/App.tsx:68-88 | the final list is a rearrangement of the candidates: at most 40, all from the catalog, and for a catalog without repeats no repeats and exactly min(40, catalog size) |
| Selection.AnyFinalOrder | src/App.tsx:88 | every rearrangement of the candidates is a possible final list |
| Selection.StartNewWorkout | src/App.tsx:57-91 | the new workout is active, getting ready at index 0, on catalog exercises only, min(40, catalog size) of them for a catalog without repeats |
| ExerciseDisplay.ViewOf | src/components/ExerciseDisplay.tsx:24-88 | the rating form when open; nothing for an inactive workout; the getting-ready view while getting ready; the exercise view otherwise |
| ExerciseDisplay.Offered | src/components/ExerciseDisplay.tsx:86-137 | controls are on show only in the exercise view and the rating form; stars and save only in the rating form; skip only during an exercise period below the last index of an active workout |
| ExerciseDisplay.Firings | src/components/ExerciseDisplay.tsx:76-104 | firings alone never change the workout's list, active or paused flags |
| ExerciseDisplay.Handle | src/components/ExerciseDisplay.tsx:19-136 | a completion is handed over only by save in the rating form, with the workout's list, rating and notes, after which the store is at its baseline; the open rating form keeps the workout; an unmounted screen ignores input |
| ExerciseDisplay.ExactlyOneOfPauseResume | src/components/ExerciseDisplay.tsx:108-122 | the exercise view offers exactly one of pause and resume: pause when running, resume when paused |
| ExerciseDisplay.PauseResumeClicks | src/components/ExerciseDisplay.tsx:108-122 | a pause or resume click flips the pause flag and changes nothing else |
| ExerciseDisplay.SkipAdvances | src/components/ExerciseDisplay.tsx:86-131 | skip is offered exactly during an exercise period below the last index, so a skip click moves strictly forward and stays in range |
| ExerciseDisplay.StopOpensRating | src/components/ExerciseDisplay.tsx:60-62 | the stop button only opens the rating form; the workout is unchanged and still active |
| ExerciseDisplay.ExerciseCompletionOpensRating | src/components/ExerciseDisplay.tsx:104 | in the exercise view the timer's completion acts exactly as stop, and any other firing is a plain tick |
| ExerciseDisplay.ReadyExitOnlyAtRestOfLast | src/components/ExerciseDisplay.tsx:64-76 | the getting-ready view gives way to the exercise view exactly when the timer completes at the end of rest at the last index, and then with 40 seconds |
| ExerciseDisplay.ReadyViewHasNoControls | src/components/ExerciseDisplay.tsx:64-84 | the getting-ready view offers no control |
| ExerciseDisplay.SaveThenReset | src/components/ExerciseDisplay.tsx:19-22 | save hands over the list, rating and notes, then the store is at its baseline and the screen is gone |
| ExerciseDisplay.RatingViewFreezesWorkout | src/components/ExerciseDisplay.tsx:24-56 | while the rating form is open only save changes the workout, and the form stays open |
| ExerciseDisplay.RatingOnlyFromStars | src/components/ExerciseDisplay.tsx:30-38 | the rating changes only by a star click in the rating form, to that star's value in 1..5 |
| ExerciseDisplay.HandlePreservesScreenOk | src/components/ExerciseDisplay.tsx:13-136 | every input keeps the workout wellformed, the rating 0 or a value in 1..5, and the rating form only over an active workout past getting ready |
| ExerciseDisplay.ScreenFollowsTimer | src/components/ExerciseDisplay.tsx:76-104 | until the timer completes, the getting-ready and exercise views pass every firing to the tick and stay put |
| ExerciseDisplay.ScreenWholeWorkout | src/components/ExerciseDisplay.tsx:64-104 | a fresh workout on n exercises reaches the exercise view after 41 + 62 * (n - 1) + 1 firings, resting at the last index with 40 seconds, and the rating form 41 firings later |
| App.SaveSession | src/App.tsx:43-55 | the history grows by one; the newest session is first and carries the given id, timestamp, exercises, rating and notes; the older ones follow in order |
| App.SaveKeepsHistory | src/App.tsx:52 | dropping the newest session gives back the earlier history, so no session is lost |
| App.RepeatSession | src/App.tsx:168 | repeating starts a fresh workout on exactly the session's list |
| App.SaveThenRepeat | src/App.tsx:43-55 | repeating the session just saved starts a workout on the saved list |
| App.Launch | src/App.tsx:10-14 | the application opens on the home view with the loaded history, no exercises and a fresh screen state |
| App.Step | src/App.tsx:57-168 | home actions do nothing during a workout and screen inputs nothing outside one; the history grows by at most one, only in front, and only as the workout ends |
| App.StepPreservesAppOk | src/App.tsx:57-168 | every action keeps the application consistent, with the screen state fresh whenever no workout is active |
| App.CompleteThenRepeat | src/App.tsx:43-168 | saving from the rating form puts the list, rating and notes in front of the history and returns home; repeating that entry starts the same list again |
| App.HistoryGrowsOnlyBySave | src/App.tsx:43-55 | the history changes only through save in the rating form |

## Left out

- Persistence: the history, welcome flag and dark-mode preference in
  `localStorage`, and the `persist` middleware of the store, are storage I/O.
  `App.Launch` takes the loaded history as a parameter.
- The `beforeunload` guard, the welcome modal, the menu, the theme selector and
  all rendering (including the history list component and its date
  formatting) are browser plumbing and display.
- The interval itself: `setInterval`/`clearInterval`, the effect's dependency
  list and its stale closures are real-time behaviour. One firing is one
  `Tick` on the current state.
- Randomness: each `sort(() => Math.random() - 0.5)` is `Permutations.Shuffle`
  with free draws. A comparator that returns random values does not give every
  permutation equal weight, and may not be consistent; the model covers every
  permutation and says nothing about their likelihood.
- Selection.SelectExercises: for a catalog with repeated entries only the
  bounds and catalog membership are stated. The source's `includes` compares
  object identity, the model compares values, so the two agree only on a
  catalog without repeated values.
- Object key order: `Object.keys` lists integer-like keys first; the model
  keeps first-appearance order for every key. Keys that collide with object
  prototype properties (such as `constructor`) are not modelled. An exercise
  without categories is filed under the key `"undefined"`.
- The catalog data is a parameter.
- App.Launch: starts from the store's baseline workout, not from a workout
  that the `persist` middleware restores from storage
  (src/store/workoutStore.ts:16, 76-78), since storage is I/O.
- Rendering an empty workout throws in the source (the getting-ready view reads
  the first exercise's title); the model shows the view and lets the timer run.
- `timeRemaining` is an integer; the store accepts any number, but the
  application only ever sets integers.
- Negative countdowns are rendered by the same definition as the others, but
  only non-negative ones are read back, since no reachable state has one.
