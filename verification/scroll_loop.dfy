/** The scroll-until-stable rule shared by both scripts
    (`scroll_results_container`).

    Each iteration observes how many results the page shows. The loop stops
    as soon as that count reaches the target, and otherwise compares it with
    the count of the previous iteration. After three iterations in a row
    with an unchanged count it gives up, and any change resets the streak.
    The page is replaced by the finite trace of counts that successive
    iterations would observe. The source loop has no iteration cap, so a run
    that uses up its trace ends with `TraceExhausted`. */
module ScrollLoop {

  /** MAX_SAME_COUNT: unchanged iterations tolerated before giving up. */
  const MaxSameCount: nat := 3

  datatype StopReason = TargetReached | Stalled | TraceExhausted

  /** The loop-carried variables: previous_results_count and
      same_count_iterations. */
  datatype LoopState = LoopState(previous: nat, stalls: nat)

  /** Both counters start at zero. */
  const Initial: LoopState := LoopState(0, 0)

  /** What one iteration decides: stop, or scroll and carry on in `next`. */
  datatype Step = Stop(reason: StopReason) | Scroll(next: LoopState)

  /** How a run ended and how many times it scrolled. */
  datatype Outcome = Outcome(reason: StopReason, scrolls: nat)

  /** One iteration of the loop body, given the observed count. */
  function StepRule(s: LoopState, current: nat, maxResults: int): (r: Step)
    ensures r == Stop(TargetReached) <==> current >= maxResults
    ensures r == Stop(Stalled) <==>
      current < maxResults && current == s.previous && s.stalls + 1 >= MaxSameCount
    ensures r.Scroll? ==> r.next.previous == current
    ensures r.Scroll? && current != s.previous ==> r.next.stalls == 0
    ensures r.Scroll? && current == s.previous ==> r.next.stalls == s.stalls + 1
    ensures r.Scroll? ==> r.next.stalls < MaxSameCount
  {
    if current >= maxResults then Stop(TargetReached)
    else if current == s.previous then
      if s.stalls + 1 >= MaxSameCount then Stop(Stalled)
      else Scroll(LoopState(current, s.stalls + 1))
    else Scroll(LoopState(current, 0))
  }

  /** The loop run from state `s` over the remaining observations. */
  function RunFrom(s: LoopState, trace: seq<nat>, maxResults: int): (o: Outcome)
    ensures o.scrolls <= |trace|
    ensures o.reason == TraceExhausted <==> o.scrolls == |trace|
    decreases |trace|
  {
    if |trace| == 0 then Outcome(TraceExhausted, 0)
    else
      match StepRule(s, trace[0], maxResults)
      case Stop(reason) => Outcome(reason, 0)
      case Scroll(next) =>
        var o := RunFrom(next, trace[1..], maxResults);
        Outcome(o.reason, o.scrolls + 1)
  }

  // ---------------------------------------------------------------------
  // A description of the stopping point that mentions no loop state.

  /** The count iteration `i` compares against: 0 before any scroll. */
  function PreviousCount(trace: seq<nat>, i: nat): nat
    requires i < |trace|
  {
    if i == 0 then 0 else trace[i - 1]
  }

  /** Iteration `i` saw no new results. */
  predicate Unchanged(trace: seq<nat>, i: nat)
    requires i < |trace|
  {
    trace[i] == PreviousCount(trace, i)
  }

  /** Iteration `i` ends a run of MaxSameCount unchanged iterations. */
  predicate StalledAt(trace: seq<nat>, i: nat)
    requires i < |trace|
  {
    MaxSameCount <= i + 1 && forall j | i + 1 - MaxSameCount <= j <= i :: Unchanged(trace, j)
  }

  /** Iteration `i` is one at which the loop would stop. */
  predicate StopsAt(trace: seq<nat>, maxResults: int, i: nat)
    requires i < |trace|
  {
    trace[i] >= maxResults || StalledAt(trace, i)
  }

  /** `o` is the outcome of running the loop over `trace`: it scrolls once per
      iteration up to the first stopping iteration, which it reports as
      target-reached exactly when the count met the target. */
  ghost predicate Describes(trace: seq<nat>, maxResults: int, o: Outcome)
  {
    && o.scrolls <= |trace|
    && (forall j | 0 <= j < o.scrolls :: !StopsAt(trace, maxResults, j))
    && (o.reason == TraceExhausted <==> o.scrolls == |trace|)
    && (o.scrolls < |trace| ==>
          && StopsAt(trace, maxResults, o.scrolls)
          && (o.reason == TargetReached <==> trace[o.scrolls] >= maxResults))
  }

  /** The description fixes the outcome: there is only one. */
  lemma DescribesUnique(trace: seq<nat>, maxResults: int, o1: Outcome, o2: Outcome)
    requires Describes(trace, maxResults, o1)
    requires Describes(trace, maxResults, o2)
    ensures o1 == o2
  {
  }

  /** Length of the run of unchanged iterations ending at `i`. */
  function StallStreak(trace: seq<nat>, i: nat): nat
    requires i < |trace|
  {
    if !Unchanged(trace, i) then 0
    else if i == 0 then 1
    else StallStreak(trace, i - 1) + 1
  }

  /** The streak is at least `n` exactly when the last `n` iterations up to
      `i` were all unchanged. */
  lemma {:induction false} StreakWindow(trace: seq<nat>, i: nat, n: nat)
    requires i < |trace|
    ensures StallStreak(trace, i) >= n <==>
      (n <= i + 1 && forall j | i + 1 - n <= j <= i :: Unchanged(trace, j))
    decreases n
  {
    if n > 0 {
      if Unchanged(trace, i) && i > 0 {
        StreakWindow(trace, i - 1, n - 1);
        if n <= i + 1 && forall j | i + 1 - n <= j <= i :: Unchanged(trace, j) {
          assert forall j | i - (n - 1) <= j <= i - 1 :: Unchanged(trace, j);
        }
      }
    }
  }

  /** The loop state at the start of iteration `k`, when no earlier
      iteration stopped. */
  function StateBefore(trace: seq<nat>, k: nat): LoopState
    requires k <= |trace|
  {
    if k == 0 then Initial else LoopState(trace[k - 1], StallStreak(trace, k - 1))
  }

  /** One iteration from the state `StateBefore(trace, k)`: it stops exactly
      when iteration `k` is a stopping one, and otherwise moves to
      `StateBefore(trace, k + 1)`. */
  lemma StepMatches(trace: seq<nat>, maxResults: int, k: nat)
    requires k < |trace|
    requires StateBefore(trace, k).stalls < MaxSameCount
    ensures var r := StepRule(StateBefore(trace, k), trace[k], maxResults);
      && (r.Stop? <==> StopsAt(trace, maxResults, k))
      && (r.Stop? ==> (r.reason == TargetReached <==> trace[k] >= maxResults))
      && (r.Scroll? ==> r.next == StateBefore(trace, k + 1))
  {
    StreakWindow(trace, k, MaxSameCount);
    assert StateBefore(trace, k).previous == PreviousCount(trace, k);
    if Unchanged(trace, k) && k > 0 {
      assert StallStreak(trace, k) == StateBefore(trace, k).stalls + 1;
    }
  }

  lemma {:induction false} RunFromDescribed(trace: seq<nat>, maxResults: int, k: nat)
    requires k <= |trace|
    requires forall j | 0 <= j < k :: !StopsAt(trace, maxResults, j)
    requires StateBefore(trace, k).stalls < MaxSameCount
    ensures var o := RunFrom(StateBefore(trace, k), trace[k..], maxResults);
      Describes(trace, maxResults, Outcome(o.reason, k + o.scrolls))
    decreases |trace| - k
  {
    if k < |trace| {
      StepMatches(trace, maxResults, k);
      var r := StepRule(StateBefore(trace, k), trace[k], maxResults);
      if r.Scroll? {
        assert trace[k..][1..] == trace[k + 1..];
        RunFromDescribed(trace, maxResults, k + 1);
      }
    }
  }

  /** `scroll_results_container` as a fold of the step rule over the trace,
      starting from zero counters. */
  function Run(trace: seq<nat>, maxResults: int): (o: Outcome)
    ensures Describes(trace, maxResults, o)
  {
    RunFromDescribed(trace, maxResults, 0);
    assert trace[0..] == trace;
    RunFrom(Initial, trace, maxResults)
  }

  /** The loop of `scroll_results_container`, statement by statement, with
      the observation of each iteration read from `trace`. */
  method ScrollResultsContainer(trace: seq<nat>, maxResults: int)
    returns (reason: StopReason, scrolls: nat)
    ensures Describes(trace, maxResults, Outcome(reason, scrolls))
  {
    var previous: nat := 0;
    var sameCount: nat := 0;
    scrolls := 0;
    while scrolls < |trace|
      invariant scrolls <= |trace|
      invariant forall j | 0 <= j < scrolls :: !StopsAt(trace, maxResults, j)
      invariant LoopState(previous, sameCount) == StateBefore(trace, scrolls)
      invariant sameCount < MaxSameCount
    {
      var current := trace[scrolls];
      StepMatches(trace, maxResults, scrolls);
      if current >= maxResults {
        return TargetReached, scrolls;
      }
      if current == previous {
        sameCount := sameCount + 1;
        if sameCount >= MaxSameCount {
          return Stalled, scrolls;
        }
      } else {
        sameCount := 0;
      }
      previous := current;
      scrolls := scrolls + 1;
    }
    return TraceExhausted, scrolls;
  }

  // ---------------------------------------------------------------------
  // Consequences the scripts rely on.

  /** A first count that already meets the target stops the loop before any
      scroll. */
  lemma TargetMetInitially(trace: seq<nat>, maxResults: int)
    requires |trace| > 0 && trace[0] >= maxResults
    ensures Run(trace, maxResults) == Outcome(TargetReached, 0)
  {
    var o := Run(trace, maxResults);
  }

  /** The target check comes first: a count that meets the target ends the
      run as target-reached even when it repeats the previous count and
      completes a stalled streak. */
  lemma TargetBeatsStall(trace: seq<nat>, maxResults: int)
    requires Run(trace, maxResults).scrolls < |trace|
    requires trace[Run(trace, maxResults).scrolls] >= maxResults
    ensures Run(trace, maxResults).reason == TargetReached
  {
  }

  /** The loop stalls at an iteration only if that iteration and the two
      before it all saw the count of the iteration before them. */
  lemma StalledMeansThreeUnchanged(trace: seq<nat>, maxResults: int)
    requires Run(trace, maxResults).reason == Stalled
    ensures var k := Run(trace, maxResults).scrolls;
      && k >= 2
      && trace[k] < maxResults
      && trace[k] == PreviousCount(trace, k)
      && trace[k - 1] == PreviousCount(trace, k - 1)
      && trace[k - 2] == PreviousCount(trace, k - 2)
  {
    var k := Run(trace, maxResults).scrolls;
    assert StopsAt(trace, maxResults, k);
    assert Unchanged(trace, k - 2) && Unchanged(trace, k - 1) && Unchanged(trace, k);
  }

  /** Previous count starts at zero, so an empty first observation already
      counts as the first unchanged iteration: three empty observations in a
      row give up after two scrolls. */
  lemma EmptyPageStallsAfterTwoScrolls(trace: seq<nat>, maxResults: int)
    requires |trace| >= 3 && trace[0] == 0 && trace[1] == 0 && trace[2] == 0
    requires maxResults > 0
    ensures Run(trace, maxResults) == Outcome(Stalled, 2)
  {
    var o := Run(trace, maxResults);
    assert Unchanged(trace, 0) && Unchanged(trace, 1) && Unchanged(trace, 2);
    assert StopsAt(trace, maxResults, 2);
  }

  /** A page whose count changes at every iteration and stays below the
      target is never abandoned: the loop scrolls after every observation, so
      only the end of the trace stops it. This is the missing iteration cap. */
  lemma {:induction false} GrowingPageNeverStops(trace: seq<nat>, maxResults: int)
    requires forall i | 0 <= i < |trace| :: trace[i] < maxResults && !Unchanged(trace, i)
    ensures Run(trace, maxResults) == Outcome(TraceExhausted, |trace|)
  {
    var o := Run(trace, maxResults);
  }

  /** A trace that ends with a plateau below the target is given up on
      exactly when the third unchanged iteration is observed. */
  lemma PlateauScenario()
    ensures Run([8, 10, 12, 12, 12, 12, 12], 50) == Outcome(Stalled, 5)
  {
    var t: seq<nat> := [8, 10, 12, 12, 12, 12, 12];
    var o := Run(t, 50);
    assert !Unchanged(t, 0) && !Unchanged(t, 1) && !Unchanged(t, 2);
    assert Unchanged(t, 3) && Unchanged(t, 4) && Unchanged(t, 5);
    assert !StopsAt(t, 50, 0) && !StopsAt(t, 50, 1) && !StopsAt(t, 50, 2);
    assert !StopsAt(t, 50, 3) && !StopsAt(t, 50, 4);
    assert StopsAt(t, 50, 5);
  }

  /** Two new results per scroll reach a target of five on the third
      observation. */
  lemma GrowthScenario()
    ensures Run([1, 3, 5, 7], 5) == Outcome(TargetReached, 2)
  {
    var t: seq<nat> := [1, 3, 5, 7];
    var o := Run(t, 5);
    assert !StopsAt(t, 5, 0) && !StopsAt(t, 5, 1) && StopsAt(t, 5, 2);
  }
}
