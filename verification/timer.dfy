/**
 * The countdown component (src/components/Timer.tsx): the body of its
 * one-second interval callback as a pure step on `WorkoutState`, runs of
 * several steps, and the minutes:seconds rendering.
 */
module Timer {
  import opened Types
  import opened WorkoutStore

  /** The state after one tick, and whether the tick called the completion handler instead. */
  datatype TickOutcome = TickOutcome(state: WorkoutState, completed: bool)

  /** The timer runs only for an active, unpaused workout. */
  predicate Running(s: WorkoutState) {
    s.isActive && !s.isPaused
  }

  /** A countdown at or below zero while resting at the last index ends the workout. */
  predicate Finishing(s: WorkoutState) {
    Running(s) && s.timeRemaining <= 0 && s.isResting && IsLastExercise(s)
  }

  /**
   * One firing of the interval: count down while time is left; at zero, leave
   * rest for the next exercise (or complete at the last index), and leave an
   * exercise period for rest at every index, the last included.
   */
  function Tick(s: WorkoutState): (r: TickOutcome)
    ensures r.completed <==> Finishing(s)
    ensures r.completed || !Running(s) ==> r.state == s
    ensures SameSession(s, r.state) && r.state.isGettingReady == s.isGettingReady
    ensures r.state.currentExercise == s.currentExercise + 1 <==>
              Running(s) && s.timeRemaining <= 0 && s.isResting && !IsLastExercise(s)
    ensures r.state.currentExercise == s.currentExercise || r.state.currentExercise == s.currentExercise + 1
    ensures Wellformed(s) ==> Wellformed(r.state)
  {
    if !s.isActive || s.isPaused then TickOutcome(s, false)
    else if s.timeRemaining > 0 then TickOutcome(SetTimeRemaining(s, s.timeRemaining - 1), false)
    else if s.isResting then
      if s.currentExercise >= |s.exercises| - 1 then TickOutcome(s, true)
      else TickOutcome(NextExercise(s), false)
    else TickOutcome(ToggleRest(s), false)
  }

  /** The state after `n` ticks. A completing tick leaves the state as it was. */
  function Run(s: WorkoutState, n: nat): (r: WorkoutState)
    ensures SameSession(s, r) && r.isGettingReady == s.isGettingReady
    ensures s.currentExercise <= r.currentExercise <= s.currentExercise + n
    decreases n
  {
    if n == 0 then s else Run(Tick(s).state, n - 1)
  }

  /** No tick among the first `n` from `s` completes the workout. */
  predicate NoCompletionWithin(s: WorkoutState, n: nat) {
    forall j: nat :: j < n ==> !Tick(Run(s, j)).completed
  }

  /** The state after a tick does not depend on the getting-ready flag, and neither does completion. */
  lemma TickIgnoresGettingReady(s: WorkoutState, b: bool)
    ensures Tick(s.(isGettingReady := b)).state == Tick(s).state.(isGettingReady := b)
    ensures Tick(s.(isGettingReady := b)).completed == Tick(s).completed
  {
  }

  /** A paused or inactive workout does not tick. */
  lemma TickFrozenWhenNotRunning(s: WorkoutState)
    requires !Running(s)
    ensures Tick(s) == TickOutcome(s, false)
  {
  }

  /** With time left, a tick takes exactly one second off and changes nothing else. */
  lemma TickCountsDown(s: WorkoutState)
    requires Running(s) && s.timeRemaining > 0
    ensures Tick(s) == TickOutcome(s.(timeRemaining := s.timeRemaining - 1), false)
  {
  }

  /** At zero during an exercise period, a tick enters rest at every index, the last one included. */
  lemma TickEntersRest(s: WorkoutState)
    requires Running(s) && s.timeRemaining <= 0 && !s.isResting
    ensures Tick(s) == TickOutcome(s.(isResting := true, timeRemaining := RestSeconds), false)
  {
  }

  /** At zero during rest below the last index, a tick moves to the next exercise. */
  lemma TickLeavesRest(s: WorkoutState)
    requires Running(s) && s.timeRemaining <= 0 && s.isResting
    requires s.currentExercise < |s.exercises| - 1
    ensures Tick(s) == TickOutcome(s.(currentExercise := s.currentExercise + 1, isResting := false,
                                      timeRemaining := ExerciseSeconds), false)
  {
  }

  /** Ticks keep the index in range, because the next exercise is taken only below the last index. */
  lemma {:induction false} RunPreservesWellformed(s: WorkoutState, n: nat)
    requires Wellformed(s)
    ensures Wellformed(Run(s, n))
    ensures Run(s, n).exercises == s.exercises
    decreases n
  {
    if n > 0 {
      RunPreservesWellformed(Tick(s).state, n - 1);
    }
  }

  /** Any number of ticks on a paused or inactive workout changes nothing. */
  lemma {:induction false} RunFrozenWhenNotRunning(s: WorkoutState, n: nat)
    requires !Running(s)
    ensures Run(s, n) == s
    decreases n
  {
    if n > 0 {
      RunFrozenWhenNotRunning(Tick(s).state, n - 1);
    }
  }

  /** Pausing, ticking any number of times and resuming lands exactly where the pause began. */
  lemma PauseTicksResume(s: WorkoutState, n: nat)
    requires !s.isPaused
    ensures ResumeWorkout(Run(PauseWorkout(s), n)) == s
  {
    RunFrozenWhenNotRunning(PauseWorkout(s), n);
  }

  /** The baseline state the store starts from is idle: ticks neither change it nor complete. */
  lemma BaselineIsIdle(n: nat)
    ensures Run(Initial, n) == Initial
    ensures NoCompletionWithin(Initial, n)
  {
    RunFrozenWhenNotRunning(Initial, n);
    forall j: nat | j < n
      ensures !Tick(Run(Initial, j)).completed
    {
      RunFrozenWhenNotRunning(Initial, j);
    }
  }

  /** Ticking `a` and then `b` times is ticking `a + b` times. */
  lemma {:induction false} RunAdditive(s: WorkoutState, a: nat, b: nat)
    ensures Run(s, a + b) == Run(Run(s, a), b)
    decreases a
  {
    if a > 0 {
      RunAdditive(Tick(s).state, a - 1, b);
    }
  }

  /** Runs without completion compose. */
  lemma NoCompletionCompose(s: WorkoutState, a: nat, b: nat)
    requires NoCompletionWithin(s, a)
    requires NoCompletionWithin(Run(s, a), b)
    ensures NoCompletionWithin(s, a + b)
  {
    forall j: nat | j < a + b
      ensures !Tick(Run(s, j)).completed
    {
      if j >= a {
        RunAdditive(s, a, j - a);
      }
    }
  }

  /**
   * A running countdown at `k` reaches zero after exactly `k` ticks, passing
   * through every value on the way, with no completion and nothing else changed.
   */
  lemma {:induction false} Countdown(s: WorkoutState, k: nat)
    requires Running(s) && s.timeRemaining == k
    ensures Run(s, k) == s.(timeRemaining := 0)
    ensures forall j: nat :: j <= k ==> Run(s, j) == s.(timeRemaining := k - j)
    ensures NoCompletionWithin(s, k)
    decreases k
  {
    if k > 0 {
      var t := s.(timeRemaining := k - 1);
      assert Tick(s).state == t;
      Countdown(t, k - 1);
      forall j: nat | j <= k
        ensures Run(s, j) == s.(timeRemaining := k - j)
      {
        if j > 0 {
          assert Run(s, j) == Run(t, j - 1);
        }
      }
    }
  }

  /** The countdown at zero during rest at index `i`. */
  function RestOver(s: WorkoutState, i: nat): WorkoutState {
    s.(currentExercise := i, isResting := true, timeRemaining := 0)
  }

  /** From the start of a workout, 41 ticks reach the end of the first rest at index 0. */
  lemma FirstRest(xs: seq<Exercise>)
    ensures Run(StartWorkout(xs), 41) == RestOver(StartWorkout(xs), 0)
    ensures NoCompletionWithin(StartWorkout(xs), 41)
  {
    var s0 := StartWorkout(xs);
    Countdown(s0, 20);
    var s1 := s0.(timeRemaining := 0);
    var s2 := s1.(isResting := true, timeRemaining := 20);
    assert Tick(s1) == TickOutcome(s2, false);
    assert Run(s1, 1) == s2;
    assert NoCompletionWithin(s1, 1);
    NoCompletionCompose(s0, 20, 1);
    RunAdditive(s0, 20, 1);
    Countdown(s2, 20);
    NoCompletionCompose(s0, 21, 20);
    RunAdditive(s0, 21, 20);
  }

  /**
   * From the end of rest below the last index, 62 ticks reach the end of the
   * following rest: one tick to the next exercise, 40 to count it down, one
   * into rest and 20 to count the rest down.
   */
  lemma NextRest(s: WorkoutState, i: nat)
    requires Running(s) && i < |s.exercises| - 1
    ensures Run(RestOver(s, i), 62) == RestOver(s, i + 1)
    ensures NoCompletionWithin(RestOver(s, i), 62)
  {
    var r0 := RestOver(s, i);
    var e0 := r0.(currentExercise := i + 1, isResting := false, timeRemaining := 40);
    assert Tick(r0) == TickOutcome(e0, false);
    assert Run(r0, 1) == e0;
    assert NoCompletionWithin(r0, 1);
    Countdown(e0, 40);
    NoCompletionCompose(r0, 1, 40);
    RunAdditive(r0, 1, 40);
    var e1 := e0.(timeRemaining := 0);
    var r1 := e1.(isResting := true, timeRemaining := 20);
    assert Tick(e1) == TickOutcome(r1, false);
    assert Run(e1, 1) == r1;
    assert NoCompletionWithin(e1, 1);
    NoCompletionCompose(r0, 41, 1);
    RunAdditive(r0, 41, 1);
    Countdown(r1, 20);
    NoCompletionCompose(r0, 42, 20);
    RunAdditive(r0, 42, 20);
  }

  /** Ticks from the start of a workout until the completion handler is called. */
  function TicksToCompletion(n: nat): nat
    requires n >= 1
  {
    41 + 62 * (n - 1)
  }

  /** After `TicksToCompletion(i + 1)` ticks from the start, rest at index `i` is over. */
  lemma {:induction false} RestOverAfter(xs: seq<Exercise>, i: nat)
    requires i < |xs|
    ensures Run(StartWorkout(xs), TicksToCompletion(i + 1)) == RestOver(StartWorkout(xs), i)
    ensures NoCompletionWithin(StartWorkout(xs), TicksToCompletion(i + 1))
    decreases i
  {
    var s0 := StartWorkout(xs);
    if i == 0 {
      FirstRest(xs);
    } else {
      RestOverAfter(xs, i - 1);
      NextRest(s0, i - 1);
      NoCompletionCompose(s0, TicksToCompletion(i), 62);
      RunAdditive(s0, TicksToCompletion(i), 62);
    }
  }

  /**
   * Ticking a freshly started workout on a non-empty list calls the completion
   * handler for the first time after `41 + 62 * (n - 1)` ticks, at the end of a
   * rest period that follows the last exercise. The getting-ready flag is still
   * raised then: no tick ever lowers it.
   */
  lemma WholeWorkout(xs: seq<Exercise>)
    requires |xs| >= 1
    ensures var s := Run(StartWorkout(xs), TicksToCompletion(|xs|));
            && Tick(s).completed
            && s.currentExercise == |xs| - 1 && s.isResting && s.timeRemaining == 0
            && s.isGettingReady && s.exercises == xs
    ensures NoCompletionWithin(StartWorkout(xs), TicksToCompletion(|xs|))
  {
    RestOverAfter(xs, |xs| - 1);
  }

  // ---------------------------------------------------------------------------
  // Rendering of the countdown as minutes and seconds.
  // ---------------------------------------------------------------------------

  /** `Math.floor(t / 60)`: Dafny's division by a positive number already rounds down. */
  function Minutes(t: int): (m: int)
    ensures m * 60 <= t < m * 60 + 60
  {
    t / 60
  }

  /** `t % 60` with the sign of `t`, as the source's remainder operator gives it. */
  function Seconds(t: int): (r: int)
    ensures t >= 0 ==> 0 <= r < 60 && Minutes(t) * 60 + r == t
    ensures t < 0 ==> -60 < r <= 0
  {
    if t >= 0 then t % 60 else -((-t) % 60)
  }

  predicate IsDigit(c: char) {
    '0' <= c <= '9'
  }

  predicate AllDigits(s: string) {
    forall i :: 0 <= i < |s| ==> IsDigit(s[i])
  }

  function DigitChar(d: nat): (c: char)
    requires d < 10
    ensures IsDigit(c) && c as int - '0' as int == d
  {
    ('0' as int + d) as char
  }

  function DigitValue(c: char): (d: nat)
    requires IsDigit(c)
    ensures d < 10 && DigitChar(d) == c
  {
    (c as int - '0' as int)
  }

  /** Decimal rendering of a natural number, without leading zeros. */
  function NatToString(n: nat): (s: string)
    ensures |s| >= 1 && AllDigits(s)
    ensures |s| == 1 <==> n < 10
    decreases n
  {
    if n < 10 then [DigitChar(n)] else NatToString(n / 10) + [DigitChar(n % 10)]
  }

  /** Decimal reading of a string of digits. */
  function StringToNat(s: string): nat
    requires AllDigits(s)
    decreases |s|
  {
    if |s| == 0 then 0 else StringToNat(s[..|s| - 1]) * 10 + DigitValue(s[|s| - 1])
  }

  lemma {:induction false} NatStringRoundTrip(n: nat)
    ensures StringToNat(NatToString(n)) == n
    decreases n
  {
    if n >= 10 {
      var s := NatToString(n);
      assert s[..|s| - 1] == NatToString(n / 10);
      NatStringRoundTrip(n / 10);
      assert DigitValue(DigitChar(n % 10)) == n % 10;
    } else {
      assert DigitValue(DigitChar(n)) == n;
    }
  }

  /** Decimal rendering of an integer with a leading minus sign when negative. */
  function IntToString(i: int): string {
    if i < 0 then "-" + NatToString(-i) else NatToString(i)
  }

  /** `padStart(2, '0')`: left-pad with zeros to at least two characters. */
  function PadStart2(s: string): (r: string)
    ensures |r| == if |s| >= 2 then |s| else 2
    ensures r[|r| - |s|..] == s
    ensures forall i :: 0 <= i < |r| - |s| ==> r[i] == '0'
  {
    if |s| >= 2 then s else seq(2 - |s|, _ => '0') + s
  }

  /** The text the timer shows: minutes, a colon, and seconds padded to two characters. */
  function Render(t: int): (r: string)
    ensures t >= 0 ==> |r| == |NatToString(Minutes(t))| + 3 && r[|r| - 3] == ':' && AllDigits(r[|r| - 2..])
    ensures t >= 0 ==> r == NatToString(Minutes(t)) + ":" + [DigitChar(Seconds(t) / 10), DigitChar(Seconds(t) % 10)]
  {
    var text := IntToString(Minutes(t)) + ":" + PadStart2(IntToString(Seconds(t)));
    if t < 0 then text
    else
      PaddedSeconds(Seconds(t));
      text
  }

  /**
   * Read a rendered countdown back: digits of minutes, a colon, and two digits
   * of seconds below 60.
   */
  function ParseClock(s: string): (r: Option<int>)
    ensures r.Some? ==> r.value >= 0 && |s| >= 4 && s[|s| - 3] == ':'
  {
    var n := |s|;
    if n >= 4 && s[n - 3] == ':' && AllDigits(s[..n - 3]) && IsDigit(s[n - 2]) && IsDigit(s[n - 1]) then
      var sec := DigitValue(s[n - 2]) * 10 + DigitValue(s[n - 1]);
      if sec < 60 then Some(StringToNat(s[..n - 3]) * 60 + sec) else None
    else None
  }

  /** A number below 60 renders, padded, as its tens digit and its units digit. */
  lemma PaddedSeconds(n: nat)
    requires n < 60
    ensures PadStart2(NatToString(n)) == [DigitChar(n / 10), DigitChar(n % 10)]
  {
    if n >= 10 {
      assert NatToString(n) == NatToString(n / 10) + [DigitChar(n % 10)];
    }
  }

  /** Minutes text, a colon and two digits read back as the minutes and seconds they spell. */
  lemma ParseJoin(r: string, m: string, mn: nat, sc: nat)
    requires m == NatToString(mn) && sc < 60
    requires r == m + ":" + [DigitChar(sc / 10), DigitChar(sc % 10)]
    ensures ParseClock(r) == Some(mn * 60 + sc)
  {
    assert r[..|r| - 3] == m;
    assert DigitValue(r[|r| - 2]) == sc / 10;
    assert DigitValue(r[|r| - 1]) == sc % 10;
    NatStringRoundTrip(mn);
  }

  /**
   * For every non-negative countdown the rendering shows minutes, a colon and
   * exactly two seconds digits, and reading it back gives the countdown itself.
   */
  lemma RenderRoundTrip(t: int)
    requires t >= 0
    ensures ParseClock(Render(t)) == Some(t)
  {
    var mn := Minutes(t);
    var sc := Seconds(t);
    var r := Render(t);
    assert r == NatToString(mn) + ":" + [DigitChar(sc / 10), DigitChar(sc % 10)];
    ParseJoin(r, NatToString(mn), mn, sc);
    assert mn * 60 + sc == t;
    assert ParseClock(r) == Some(t);
  }

}
