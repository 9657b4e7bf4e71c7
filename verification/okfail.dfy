/** LastOkFailCounter: when the game server counts as offline. */
module OkFail {
  import opened Outcomes

  /** on_fails_threshold_reset and on_fails_threshold_reached. */
  datatype Callback = Up | Down

  datatype Counter = Counter(lastSuccessAt: real, failsInRow: nat, reached: bool)

  const FRESH: Counter := Counter(0.0, 0, true)

  function OkStep(c: Counter, now: real): (Counter, Option<Callback>) {
    if now < c.lastSuccessAt then (c, None)
    else (Counter(now, 0, false), if c.reached then Some(Up) else None)
  }

  function FailStep(c: Counter, now: real, threshold: nat): (Counter, Option<Callback>) {
    if now < c.lastSuccessAt then (c, None)
    else if c.failsInRow + 1 == threshold then (Counter(c.lastSuccessAt, c.failsInRow + 1, true), Some(Down))
    else (Counter(c.lastSuccessAt, c.failsInRow + 1, c.reached), None)
  }

  class LastOkFailCounter {
    var lastSuccessAt: real
    var failsInRow: nat
    var failsThresholdReached: bool
    const failsThreshold: nat

    ghost function View(): Counter
      reads this
    {
      Counter(lastSuccessAt, failsInRow, failsThresholdReached)
    }

    constructor (failsThreshold: nat)
      ensures View() == FRESH && this.failsThreshold == failsThreshold
    {
      this.failsThreshold := failsThreshold;
      lastSuccessAt, failsInRow, failsThresholdReached := 0.0, 0, true;
    }

    /** `ok()`; the callback that it runs is returned. */
    method Ok(now: real) returns (called: Option<Callback>)
      modifies this
      ensures (View(), called) == OkStep(old(View()), now)
    {
      if now < lastSuccessAt {
        return None;
      }
      lastSuccessAt := now;
      failsInRow := 0;
      if failsThresholdReached {
        failsThresholdReached := false;
        return Some(Up);
      }
      return None;
    }

    /** `fail()` */
    method Fail(now: real) returns (called: Option<Callback>)
      modifies this
      ensures (View(), called) == FailStep(old(View()), now, failsThreshold)
    {
      if now < lastSuccessAt {
        return None;
      }
      failsInRow := failsInRow + 1;
      if failsInRow == failsThreshold {
        failsThresholdReached := true;
        return Some(Down);
      }
      return None;
    }
  }

  // ---------------------------------------------------------------- runs

  /** How an exchange with the game server ended, and when. */
  datatype Exchange = Success(now: real) | Timeout(now: real)

  /** `online` is what the last callback has set it to. */
  datatype Status = Status(counter: Counter, online: bool, log: seq<Callback>)

  const OFFLINE: Status := Status(FRESH, false, [])

  function Step(s: Status, e: Exchange, threshold: nat): Status {
    var (counter, called) := if e.Success? then OkStep(s.counter, e.now) else FailStep(s.counter, e.now, threshold);
    match called
    case Some(callback) => Status(counter, callback.Up?, s.log + [callback])
    case None => s.(counter := counter)
  }

  function Run(history: seq<Exchange>, threshold: nat): Status {
    if history == [] then OFFLINE
    else Step(Run(history[..|history| - 1], threshold), history[|history| - 1], threshold)
  }

  /** The clock never goes back. */
  ghost predicate Monotonic(history: seq<Exchange>) {
    (forall i :: 0 <= i < |history| ==> history[i].now >= 0.0)
    && forall i, j :: 0 <= i < j < |history| ==> history[i].now <= history[j].now
  }

  predicate AnySuccess(history: seq<Exchange>) {
    exists i :: 0 <= i < |history| && history[i].Success?
  }

  /** How many timeouts the history ends with. */
  function TimeoutsSince(history: seq<Exchange>): nat {
    if history == [] || history[|history| - 1].Success? then 0 else 1 + TimeoutsSince(history[..|history| - 1])
  }

  ghost predicate Alternates(log: seq<Callback>) {
    forall i :: 0 <= i < |log| - 1 ==> log[i] != log[i + 1]
  }

  /** What the state is worth after a history. */
  ghost predicate Tracks(s: Status, history: seq<Exchange>, threshold: nat) {
    && s.counter.failsInRow == TimeoutsSince(history)
    && s.counter.lastSuccessAt <= (if history == [] then 0.0 else history[|history| - 1].now)
    && (s.online <==> !s.counter.reached)
    && (s.online <==> AnySuccess(history) && TimeoutsSince(history) < threshold)
    && Alternates(s.log)
    && (s.online <==> s.log != [] && s.log[|s.log| - 1] == Up)
    && (s.counter.reached && s.counter.failsInRow < threshold ==> s.log == [])
  }

  lemma Counts(history: seq<Exchange>)
    requires history != []
    ensures
      var before, last := history[..|history| - 1], history[|history| - 1];
      && (AnySuccess(history) <==> AnySuccess(before) || last.Success?)
      && TimeoutsSince(history) == (if last.Success? then 0 else 1 + TimeoutsSince(before))
      && (Monotonic(history) ==> Monotonic(before) && (before != [] ==> before[|before| - 1].now <= last.now))
  {
    var before := history[..|history| - 1];
    assert forall i :: 0 <= i < |before| ==> before[i] == history[i];
  }

  lemma StepTracks(s: Status, before: seq<Exchange>, last: Exchange, history: seq<Exchange>, threshold: nat)
    requires threshold >= 1 && Tracks(s, before, threshold) && history == before + [last]
    requires last.now >= (if before == [] then 0.0 else before[|before| - 1].now)
    requires AnySuccess(history) <==> AnySuccess(before) || last.Success?
    requires TimeoutsSince(history) == if last.Success? then 0 else 1 + TimeoutsSince(before)
    ensures Tracks(Step(s, last, threshold), history, threshold)
  {
    hide AnySuccess, TimeoutsSince;
  }

  lemma {:induction false} RunTracks(history: seq<Exchange>, threshold: nat)
    requires threshold >= 1 && Monotonic(history)
    ensures Tracks(Run(history, threshold), history, threshold)
  {
    if history != [] {
      var before, last := history[..|history| - 1], history[|history| - 1];
      Counts(history);
      RunTracks(before, threshold);
      assert history == before + [last] && last.now >= 0.0;
      hide Tracks, Step, AnySuccess, TimeoutsSince, Monotonic;
      StepTracks(Run(before, threshold), before, last, history, threshold);
    }
  }

  /** The proxy is online exactly when some exchange has succeeded and fewer than `threshold` timeouts, of all
      updaters together, have followed the last success. */
  lemma OnlineRefinesHistory(history: seq<Exchange>, threshold: nat)
    requires threshold >= 1 && Monotonic(history)
    ensures Run(history, threshold).online <==> AnySuccess(history) && TimeoutsSince(history) < threshold
  {
    RunTracks(history, threshold);
  }

  /** The callbacks are called alternately, and the last one decides: `DOWN? (UP DOWN)* UP?`. */
  lemma CallbacksAlternate(history: seq<Exchange>, threshold: nat)
    requires threshold >= 1 && Monotonic(history)
    ensures
      var s := Run(history, threshold);
      Alternates(s.log) && (s.online <==> s.log != [] && s.log[|s.log| - 1] == Up)
  {
    RunTracks(history, threshold);
  }

  // ---------------------------------------------------------------- any clock

  /** The time of the last success, or zero. */
  function LastSuccess(history: seq<Exchange>): real {
    if history == [] then 0.0
    else if history[|history| - 1].Success? then history[|history| - 1].now
    else LastSuccess(history[..|history| - 1])
  }

  /** The exchanges that are not earlier than the last success before them. */
  function Counted(history: seq<Exchange>): seq<Exchange> {
    if history == [] then [] else
    var before, last := Counted(history[..|history| - 1]), history[|history| - 1];
    if last.now < LastSuccess(before) then before else before + [last]
  }

  lemma {:induction false} SuccessTime(history: seq<Exchange>, threshold: nat)
    requires Counted(history) == history
    ensures Run(history, threshold).counter.lastSuccessAt == LastSuccess(history)
  {
    if history != [] {
      var before := history[..|history| - 1];
      CountedBefore(history);
      SuccessTime(before, threshold);
    }
  }

  lemma CountedBefore(history: seq<Exchange>)
    requires history != [] && Counted(history) == history
    ensures Counted(history[..|history| - 1]) == history[..|history| - 1]
    ensures history[|history| - 1].now >= LastSuccess(history[..|history| - 1])
  {
    var before := history[..|history| - 1];
    CountedSize(before);
    assert Counted(history) == Counted(before) || Counted(history) == Counted(before) + [history[|history| - 1]];
    assert |Counted(before)| == |before|;
  }

  lemma {:induction false} CountedSize(history: seq<Exchange>)
    ensures |Counted(history)| <= |history|
  {
    if history != [] {
      CountedSize(history[..|history| - 1]);
    }
  }

  lemma {:induction false} CountedTwice(history: seq<Exchange>)
    ensures Counted(Counted(history)) == Counted(history)
  {
    if history != [] {
      var before, last := history[..|history| - 1], history[|history| - 1];
      CountedTwice(before);
      if last.now >= LastSuccess(Counted(before)) {
        assert (Counted(before) + [last])[..|Counted(before)|] == Counted(before);
      }
    }
  }

  /** Whatever the clock does: exchanges that are earlier than the last success count for nothing, and there are no
      others that do. */
  lemma {:induction false} LateCountsForNothing(history: seq<Exchange>, threshold: nat)
    ensures Run(history, threshold) == Run(Counted(history), threshold)
  {
    if history != [] {
      var before, last := history[..|history| - 1], history[|history| - 1];
      LateCountsForNothing(before, threshold);
      CountedTwice(before);
      SuccessTime(Counted(before), threshold);
      if last.now >= LastSuccess(Counted(before)) {
        assert (Counted(before) + [last])[..|Counted(before)|] == Counted(before);
      }
      hide Counted, LastSuccess;
    }
  }
}
