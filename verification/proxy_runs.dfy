/** What holds over every run of the proxy. */
module ProxyRuns {
  import opened Outcomes
  import opened Wire
  import opened Proxy
  import Awaitable
  import OkFail

  function After(s: State, events: seq<Event>, threshold: nat): State {
    if events == [] then s else Step(After(s, events[..|events| - 1], threshold), events[|events| - 1], threshold)
  }

  /** Every event can happen when it does. */
  ghost predicate Possible(s: State, events: seq<Event>, threshold: nat) {
    events != [] ==>
      && Possible(s, events[..|events| - 1], threshold)
      && Enabled(After(s, events[..|events| - 1], threshold), events[|events| - 1])
  }

  /** The exchanges of all updaters together, oldest first. */
  function History(events: seq<Event>): seq<OkFail.Exchange> {
    if events == [] then [] else
    History(events[..|events| - 1]) +
    match events[|events| - 1]
    case TimedOut(now) => [OkFail.Timeout(now)]
    case Answered(_, _, now) => [OkFail.Success(now)]
    case _ => []
  }

  /** The bytes that the updater of `key` received last. */
  function LastAnswer(events: seq<Event>, key: CacheKey): Option<Bytes> {
    if events == [] then None else
    var e := events[|events| - 1];
    if e.Answered? && e.key == key then Some(e.data) else LastAnswer(events[..|events| - 1], key)
  }

  /** An ordinary dictionary, had it been given all the answers. */
  function Writes(entries: Entries, events: seq<Event>): Entries {
    if events == [] then entries else
    var before := Writes(entries, events[..|events| - 1]);
    match events[|events| - 1]
    case Answered(key, data, _) => before[key := data]
    case _ => before
  }

  lemma {:induction false} WritesAt(entries: Entries, events: seq<Event>, key: CacheKey)
    ensures key in Writes(entries, events) <==> key in entries || LastAnswer(events, key).Some?
    ensures key in Writes(entries, events) ==>
      Writes(entries, events)[key] == match LastAnswer(events, key) case Some(data) => data case None => entries[key]
  {
    if events != [] {
      WritesAt(entries, events[..|events| - 1], key);
    }
  }

  lemma {:induction false} RunValid(s: State, events: seq<Event>, threshold: nat)
    requires Valid(s) && Possible(s, events, threshold)
    ensures Valid(After(s, events, threshold))
  {
    hide Valid, Step, Enabled;
    if events != [] {
      RunValid(s, events[..|events| - 1], threshold);
      StepView(After(s, events[..|events| - 1], threshold), events[|events| - 1], threshold);
    }
  }

  // ---------------------------------------------------------------- one wait_ready at a time

  function Begins(events: seq<Event>): nat {
    if events == [] then 0
    else Begins(events[..|events| - 1]) + if events[|events| - 1].BeginWait? then 1 else 0
  }

  /** The calls of wait_ready that have not ended; call number `id` made AwaitableDict number `id`. */
  function Waiting(events: seq<Event>): set<nat> {
    if events == [] then {} else
    var before := events[..|events| - 1];
    match events[|events| - 1]
    case BeginWait(_) => Waiting(before) + {Begins(before)}
    case EndWait(id) => Waiting(before) - {id}
    case _ => Waiting(before)
  }

  /** wait_ready is called only when no other call of it is under way, and every call ends once. */
  predicate OneAtATime(events: seq<Event>) {
    events != [] ==>
      var before, e := events[..|events| - 1], events[|events| - 1];
      && OneAtATime(before)
      && (e.BeginWait? ==> Waiting(before) == {})
      && (e.EndWait? ==> e.id in Waiting(before))
  }

  ghost predicate Undisturbed(s: State, events: seq<Event>) {
    && Valid(s)
    && |s.dicts| == Begins(events)
    && View(s) == Writes(map[], events)
    && Waiting(events) == if s.cache.Wrapped? then {s.cache.id} else {}
  }

  lemma UndisturbedStep(s: State, before: seq<Event>, e: Event, threshold: nat)
    requires Undisturbed(s, before) && Enabled(s, e)
    requires e.BeginWait? ==> Waiting(before) == {}
    requires e.EndWait? ==> e.id in Waiting(before)
    ensures Undisturbed(Step(s, e, threshold), before + [e])
  {
    StepView(s, e, threshold);
    UnfoldLast(before, e);
    hide Valid, View, Begins, Writes, Waiting, Enabled;
    hide OkFail.Step, Awaitable.Ready, Awaitable.Valid, Awaitable.DictSet, Awaitable.DictWait, Awaitable.DictCancel;
  }

  lemma UnfoldLast(before: seq<Event>, e: Event)
    ensures Begins(before + [e]) == Begins(before) + if e.BeginWait? then 1 else 0
    ensures Writes(map[], before + [e]) ==
      match e case Answered(key, data, _) => Writes(map[], before)[key := data] case _ => Writes(map[], before)
    ensures Waiting(before + [e]) ==
      if e.BeginWait? then Waiting(before) + {Begins(before)} else if e.EndWait? then Waiting(before) - {e.id}
        else Waiting(before)
  {
    assert (before + [e])[..|before|] == before;
  }

  lemma {:induction false} RunUndisturbed(events: seq<Event>, threshold: nat)
    requires Possible(START, events, threshold) && OneAtATime(events)
    ensures Undisturbed(After(START, events, threshold), events)
  {
    if events != [] {
      var n := |events| - 1;
      RunUndisturbed(events[..n], threshold);
      UndisturbedStep(After(START, events[..n], threshold), events[..n], events[n], threshold);
      assert events[..n] + [events[n]] == events;
      hide *;
    }
  }

  /** With one wait_ready at a time, finished or timed out, clients see exactly the latest answers: whatever is
      swapped, waited for or cancelled in between. */
  lemma ViewIsLastAnswers(events: seq<Event>, threshold: nat, key: CacheKey)
    requires Possible(START, events, threshold) && OneAtATime(events)
    ensures key in View(After(START, events, threshold)) <==> LastAnswer(events, key).Some?
    ensures key in View(After(START, events, threshold)) ==>
      LastAnswer(events, key) == Some(View(After(START, events, threshold))[key])
  {
    RunUndisturbed(events, threshold);
    WritesAt(map[], events, key);
  }

  /** The events of the updaters alone. */
  function WithoutWaits(events: seq<Event>): seq<Event> {
    if events == [] then [] else
    WithoutWaits(events[..|events| - 1]) +
    if events[|events| - 1].TimedOut? || events[|events| - 1].Answered? then [events[|events| - 1]] else []
  }

  lemma AfterSnoc(s: State, events: seq<Event>, e: Event, threshold: nat)
    ensures After(s, events + [e], threshold) == Step(After(s, events, threshold), e, threshold)
  {
    assert (events + [e])[..|events|] == events;
  }

  lemma AfterLast(events: seq<Event>, threshold: nat)
    requires events != []
    ensures After(START, events, threshold) ==
      Step(After(START, events[..|events| - 1], threshold), events[|events| - 1], threshold)
  {
  }

  lemma StatusStep(s: State, t: State, e: Event, threshold: nat)
    requires s.status == t.status
    ensures e.TimedOut? || e.Answered? ==> Step(s, e, threshold).status == Step(t, e, threshold).status
    ensures !e.TimedOut? && !e.Answered? ==> Step(s, e, threshold).status == s.status
    ensures t.cache.Plain? && e.Answered? ==> Step(t, e, threshold).cache == Plain(t.cache.entries[e.key := e.data])
    ensures t.cache.Plain? && e.TimedOut? ==> Step(t, e, threshold).cache == t.cache
  {
    hide OkFail.Step;
  }

  lemma {:induction false} UpdatersAlone(events: seq<Event>, threshold: nat)
    ensures After(START, WithoutWaits(events), threshold).status == After(START, events, threshold).status
    ensures After(START, WithoutWaits(events), threshold).cache == Plain(Writes(map[], events))
  {
    if events != [] {
      var n := |events| - 1;
      var before := events[..n];
      UpdatersAlone(before, threshold);
      AfterSnoc(START, WithoutWaits(before), events[n], threshold);
      StatusStep(After(START, before, threshold), After(START, WithoutWaits(before), threshold), events[n], threshold);
      assert WithoutWaits(before) + [] == WithoutWaits(before);
      hide Step, After;
      AfterLast(events, threshold);
    }
  }

  /** When every wait_ready has ended, `resp_cache` and the status are what they would have been without any of
      them. */
  lemma WaitsLeaveNoTrace(events: seq<Event>, threshold: nat)
    requires Possible(START, events, threshold) && OneAtATime(events) && Waiting(events) == {}
    ensures After(START, events, threshold).cache == After(START, WithoutWaits(events), threshold).cache
    ensures After(START, events, threshold).status == After(START, WithoutWaits(events), threshold).status
  {
    RunUndisturbed(events, threshold);
    UpdatersAlone(events, threshold);
    hide Possible, OneAtATime, After, Writes, Valid;
  }

  // ---------------------------------------------------------------- overlapping calls

  /** A dictionary that is not the cache never becomes it again, and nothing reaches it, whatever else happens. */
  lemma {:induction false} Superseded(s: State, events: seq<Event>, threshold: nat, id: nat)
    requires Valid(s) && id < |s.dicts| && s.cache != Wrapped(id) && Possible(s, events, threshold)
    ensures
      var t := After(s, events, threshold);
      && Valid(t) && id < |t.dicts| && t.cache != Wrapped(id)
      && Awaitable.Ready(t.dicts[id]) == Awaitable.Ready(s.dicts[id])
  {
    if events != [] {
      var n := |events| - 1;
      Superseded(s, events[..n], threshold, id);
      SupersededStep(After(s, events[..n], threshold), events[n], threshold, id);
      hide Step, Valid, Enabled, Awaitable.Ready;
    }
  }

  lemma SupersededStep(t: State, e: Event, threshold: nat, id: nat)
    requires Valid(t) && Enabled(t, e) && id < |t.dicts| && t.cache != Wrapped(id)
    ensures
      var u := Step(t, e, threshold);
      && Valid(u) && id < |u.dicts| && u.cache != Wrapped(id)
      && Awaitable.Ready(u.dicts[id]) == Awaitable.Ready(t.dicts[id])
  {
    StepView(t, e, threshold);
    StepDict(t, e, threshold, id);
    hide Valid, View, OkFail.Step;
    hide Awaitable.Ready, Awaitable.Valid, Awaitable.DictSet, Awaitable.DictWait, Awaitable.DictCancel;
  }

  /** As long as no wait ends, clients see every answer. */
  lemma {:induction false} AnswersShow(s: State, events: seq<Event>, threshold: nat)
    requires Valid(s) && Possible(s, events, threshold) && forall e :: e in events ==> !e.EndWait?
    ensures Valid(After(s, events, threshold)) && View(After(s, events, threshold)) == Writes(View(s), events)
  {
    if events != [] {
      var n := |events| - 1;
      assert forall e :: e in events[..n] ==> e in events;
      AnswersShow(s, events[..n], threshold);
      StepView(After(s, events[..n], threshold), events[n], threshold);
      assert events[n] in events;
      hide Step, View, Valid, Enabled;
    }
  }

  /** Whenever something takes the cache away from the dictionary of a wait, be it the beginning or the end of another
      wait, and whatever happens after that, the end of the first wait takes the cache back to what it was then: every
      answer in between is lost, so the cache is as it should be exactly when none of them was news. */
  lemma OverlapLosesAnswers(s: State, id: nat, taken: Event, events: seq<Event>, threshold: nat)
    requires Valid(s) && s.cache == Wrapped(id) && Enabled(s, taken) && Step(s, taken, threshold).cache != Wrapped(id)
    requires Possible(Step(s, taken, threshold), events, threshold)
    ensures
      var before := After(Step(s, taken, threshold), events, threshold);
      var after := Step(before, EndWait(id), threshold);
      && after.cache == Plain(View(s))
      && (View(after) == Writes(View(s), [taken] + events) <==>
            forall key :: LastAnswer(events, key).Some? ==>
              key in View(s) && View(s)[key] == LastAnswer(events, key).value)
      && (taken.BeginWait? && (forall e :: e in events ==> !e.EndWait?) ==> View(before) == Writes(View(s), events))
  {
    var t := Step(s, taken, threshold);
    assert !taken.Answered? && id < |t.dicts|;
    assert Awaitable.Ready(s.dicts[id]) == View(s);
    StepView(s, taken, threshold);
    StepDict(s, taken, threshold, id);
    Superseded(t, events, threshold, id);
    NoNews(View(s), events);
    WritesAfter(View(s), taken, events);
    hide Writes, LastAnswer, Valid, Awaitable.Ready, Awaitable.Valid, Possible;
    if taken.BeginWait? && forall e :: e in events ==> !e.EndWait? {
      AnswersShow(t, events, threshold);
    }
    hide After, Enabled;
  }

  lemma {:induction false} WritesAfter(entries: Entries, first: Event, events: seq<Event>)
    requires !first.Answered?
    ensures Writes(entries, [first] + events) == Writes(entries, events)
  {
    var all := [first] + events;
    if events == [] {
      assert all[..0] == [];
    } else {
      assert all[..|all| - 1] == [first] + events[..|events| - 1];
      WritesAfter(entries, first, events[..|events| - 1]);
    }
  }

  lemma NoNews(entries: Entries, events: seq<Event>)
    ensures Writes(entries, events) == entries <==>
      forall key :: LastAnswer(events, key).Some? ==> key in entries && entries[key] == LastAnswer(events, key).value
  {
    forall key ensures
      && (key in Writes(entries, events) <==> key in entries || LastAnswer(events, key).Some?)
      && (key in Writes(entries, events) ==>
            Writes(entries, events)[key] == match LastAnswer(events, key) case Some(data) => data
              case None => entries[key])
    {
      WritesAt(entries, events, key);
    }
    hide Writes, LastAnswer;
  }

  /** Two overlapping calls can leave the proxy online with nothing to say. */
  lemma OverlapEmptiesCache(data: Bytes)
    ensures
      var none: WaitDict := Awaitable.Dict(map[], []);
      var events := [BeginWait(none), BeginWait(none), Answered(A2sInfo, data, 1.0), EndWait(0)];
      && Possible(START, events, 1)
      && After(START, events, 1).status.online
      && Listen(After(START, events, 1), Some(Info), 1, 7) == Silence
      && LastAnswer(events, A2sInfo) == Some(data)
  {
    hide *;
    var none: WaitDict := Awaitable.Dict(map[], []);
    var begin, answer := BeginWait(none), Answered(A2sInfo, data, 1.0);
    OverlapSteps(none, data);
    NothingYet(1);
    Literals(begin, begin, answer, EndWait(0));
    PossibleSnoc(START, [], begin, 1);
    PossibleSnoc(START, [begin], begin, 1);
    PossibleSnoc(START, [begin, begin], answer, 1);
    PossibleSnoc(START, [begin, begin, answer], EndWait(0), 1);
  }

  lemma NothingYet(threshold: nat)
    ensures After(START, [], threshold) == START && Possible(START, [], threshold)
  {
  }

  lemma Literals<T>(a: T, b: T, c: T, d: T)
    ensures [] + [a] == [a] && [a] + [b] == [a, b] && [a, b] + [c] == [a, b, c] && [a, b, c] + [d] == [a, b, c, d]
  {
  }

  lemma OverlapSteps(none: WaitDict, data: Bytes)
    requires none == Awaitable.Dict(map[], [])
    ensures
      var begin, answer := BeginWait(none), Answered(A2sInfo, data, 1.0);
      var s1 := Step(START, begin, 1);
      var s2 := Step(s1, begin, 1);
      var s3 := Step(s2, answer, 1);
      var s4 := Step(s3, EndWait(0), 1);
      && Enabled(START, begin) && Enabled(s1, begin) && Enabled(s2, answer) && Enabled(s3, EndWait(0))
      && s4.status.online && Listen(s4, Some(Info), 1, 7) == Silence
  {
    var s2 := Step(Step(START, BeginWait(none), 1), BeginWait(none), 1);
    var s3 := Step(s2, Answered(A2sInfo, data, 1.0), 1);
    assert Awaitable.Ready(none) == map[] && Awaitable.Valid(none);
    assert s2.dicts == [none, none] && s3.dicts[0] == none;
  }

  lemma PossibleSnoc(s: State, events: seq<Event>, e: Event, threshold: nat)
    requires Possible(s, events, threshold) && Enabled(After(s, events, threshold), e)
    ensures Possible(s, events + [e], threshold)
    ensures After(s, events + [e], threshold) == Step(After(s, events, threshold), e, threshold)
    ensures forall key ::
      LastAnswer(events + [e], key) == if e.Answered? && e.key == key then Some(e.data) else LastAnswer(events, key)
  {
    assert (events + [e])[..|events|] == events;
  }

  // ---------------------------------------------------------------- every run

  /** Which wait has the cache, if any: the one begun last, unless one has ended since. */
  function Current(events: seq<Event>): Option<nat> {
    if events == [] then None else
    match events[|events| - 1]
    case BeginWait(_) => Some(Begins(events[..|events| - 1]))
    case EndWait(_) => None
    case _ => Current(events[..|events| - 1])
  }

  /** What clients see after any run, told without futures: the answers, except that the end of a wait shows what the
      wait holds. */
  function Shown(events: seq<Event>): Entries
    decreases |events|, 0
  {
    if events == [] then map[] else
    var before, e := events[..|events| - 1], events[|events| - 1];
    if e.Answered? then Shown(before)[e.key := e.data]
    else if e.EndWait? then Held(before, e.id)
    else Shown(before)
  }

  /** What a wait holds: what clients see while it has the cache, and ever after what they saw when it lost it. */
  function Held(events: seq<Event>, id: nat): Entries
    decreases |events|, 1
  {
    if events == [] then map[]
    else if Current(events) == Some(id) then Shown(events)
    else Held(events[..|events| - 1], id)
  }

  ghost predicate Explained(s: State, events: seq<Event>) {
    && Valid(s)
    && |s.dicts| == Begins(events)
    && View(s) == Shown(events)
    && (match Current(events) case Some(id) => s.cache == Wrapped(id) case None => s.cache.Plain?)
    && forall id :: 0 <= id < |s.dicts| ==> Awaitable.Ready(s.dicts[id]) == Held(events, id)
  }

  lemma ExplainedStep(s: State, before: seq<Event>, e: Event, threshold: nat)
    requires Explained(s, before) && Enabled(s, e)
    ensures Explained(Step(s, e, threshold), before + [e])
  {
    var t, events := Step(s, e, threshold), before + [e];
    assert events[..|before|] == before;
    StepView(s, e, threshold);
    Sizes(s, e, threshold);
    forall id | 0 <= id < |t.dicts| ensures Awaitable.Ready(t.dicts[id]) == Held(events, id) {
      if id < |s.dicts| {
        StepDict(s, e, threshold, id);
      }
      HeldLast(s, before, e, threshold, id);
    }
    hide Valid, Held, Awaitable.Ready, Enabled;
  }

  /** The dictionaries and the cache after a step. */
  lemma Sizes(s: State, e: Event, threshold: nat)
    requires Valid(s) && Enabled(s, e)
    ensures
      var t := Step(s, e, threshold);
      && |t.dicts| == |s.dicts| + (if e.BeginWait? then 1 else 0)
      && (e.BeginWait? ==> t.cache == Wrapped(|s.dicts|) && Awaitable.Ready(t.dicts[|s.dicts|]) == View(s))
      && (e.EndWait? ==> t.cache.Plain?)
      && (!e.BeginWait? && !e.EndWait? ==> t.cache == s.cache || (t.cache.Plain? && s.cache.Plain?))
      && (t.cache.Wrapped? ==> t.cache.id < |t.dicts| && Awaitable.Ready(t.dicts[t.cache.id]) == View(t))
  {
    StepView(s, e, threshold);
    hide Awaitable.Ready, Awaitable.Valid, Awaitable.DictSet, Awaitable.DictWait, Awaitable.DictCancel, OkFail.Step;
  }

  lemma HeldLast(s: State, before: seq<Event>, e: Event, threshold: nat, id: nat)
    requires Explained(s, before) && Enabled(s, e) && id < |Step(s, e, threshold).dicts|
    requires id < |s.dicts| && !(e.Answered? && s.cache == Wrapped(id)) ==>
      Awaitable.Ready(Step(s, e, threshold).dicts[id]) == Awaitable.Ready(s.dicts[id])
    ensures Awaitable.Ready(Step(s, e, threshold).dicts[id]) == Held(before + [e], id)
  {
    var t, events := Step(s, e, threshold), before + [e];
    assert events[..|before|] == before;
    StepView(s, e, threshold);
    Sizes(s, e, threshold);
    hide Valid, View, Step, Awaitable.Ready, Enabled;
  }

  /** After every possible run, with whatever overlap of waits, clients see exactly what the events tell. */
  lemma {:induction false} EveryRunShows(events: seq<Event>, threshold: nat)
    requires Possible(START, events, threshold)
    ensures Explained(After(START, events, threshold), events)
    ensures View(After(START, events, threshold)) == Shown(events)
  {
    if events != [] {
      var n := |events| - 1;
      EveryRunShows(events[..n], threshold);
      ExplainedStep(After(START, events[..n], threshold), events[..n], events[n], threshold);
      assert events[..n] + [events[n]] == events;
      hide *;
    }
  }

  // ---------------------------------------------------------------- online and cached

  lemma StepStatus(s: State, e: Event, threshold: nat)
    ensures Step(s, e, threshold).status ==
      match e
      case TimedOut(now) => OkFail.Step(s.status, OkFail.Timeout(now), threshold)
      case Answered(_, _, now) => OkFail.Step(s.status, OkFail.Success(now), threshold)
      case _ => s.status
  {
    hide OkFail.Step;
  }

  lemma {:induction false} StatusIsRun(events: seq<Event>, threshold: nat)
    ensures After(START, events, threshold).status == OkFail.Run(History(events), threshold)
  {
    if events != [] {
      var n := |events| - 1;
      StatusIsRun(events[..n], threshold);
      var h := History(events[..n]);
      if events[n].TimedOut? || events[n].Answered? {
        var x := History(events)[|h|];
        assert History(events) == h + [x] && (h + [x])[..|h|] == h;
      } else {
        assert History(events) == h;
      }
      AfterLast(events, threshold);
      StepStatus(After(START, events[..n], threshold), events[n], threshold);
      hide OkFail.Step, After, Step;
    }
  }

  lemma {:induction false} SuccessIsAnswer(events: seq<Event>) returns (key: CacheKey)
    requires OkFail.AnySuccess(History(events))
    ensures LastAnswer(events, key).Some?
  {
    var n := |events| - 1;
    var h := History(events[..n]);
    if events[n].Answered? {
      key := events[n].key;
    } else {
      assert forall i :: 0 <= i < |h| ==> History(events)[i] == h[i];
      key := SuccessIsAnswer(events[..n]);
    }
  }

  /** Clients are served by the history alone: nothing unless some exchange succeeded and fewer than `threshold`
      timeouts followed the last success; then to an info request the bytes that the info updater received last,
      to a players or rules request with our challenge the bytes its updater received last, and to any other
      challenge our own. */
  lemma ServesHistory(events: seq<Event>, threshold: nat, request: Option<Query>, port: int, ours: int)
    requires Possible(START, events, threshold) && OneAtATime(events)
    requires threshold >= 1 && OkFail.Monotonic(History(events)) && ours != EMPTY_CHALLENGE
    ensures
      var online := OkFail.AnySuccess(History(events)) && OkFail.TimeoutsSince(History(events)) < threshold;
      Listen(After(START, events, threshold), request, port, ours) ==
        if request.None? || port == 0 || !online then Silence
        else match request.value
          case Info => LastOrSilence(events, A2sInfo)
          case Players(challenge) => if challenge == ours then LastOrSilence(events, A2sPlayers) else OurChallenge
          case Rules(challenge) => if challenge == ours then LastOrSilence(events, A2sRules) else OurChallenge
  {
    hide *;
    StatusIsRun(events, threshold);
    OkFail.OnlineRefinesHistory(History(events), threshold);
    Served(After(START, events, threshold), request, port, ours);
    ViewIsLastAnswers(events, threshold, A2sInfo);
    ViewIsLastAnswers(events, threshold, A2sPlayers);
    ViewIsLastAnswers(events, threshold, A2sRules);
    LastOr(events, A2sInfo);
    LastOr(events, A2sPlayers);
    LastOr(events, A2sRules);
  }

  function LastOrSilence(events: seq<Event>, key: CacheKey): Response {
    match LastAnswer(events, key) case Some(data) => Cached(data) case None => Silence
  }

  lemma LastOr(events: seq<Event>, key: CacheKey)
    ensures LastAnswer(events, key).None? ==> LastOrSilence(events, key) == Silence
    ensures LastAnswer(events, key).Some? ==> LastOrSilence(events, key) == Cached(LastAnswer(events, key).value)
  {
  }

  lemma Served(s: State, request: Option<Query>, port: int, ours: int)
    requires ours != EMPTY_CHALLENGE
    ensures Listen(s, request, port, ours) ==
      if request.None? || port == 0 || !s.status.online then Silence
      else match request.value
        case Info => if A2sInfo in View(s) then Cached(View(s)[A2sInfo]) else Silence
        case Players(challenge) =>
          if challenge != ours then OurChallenge else if A2sPlayers in View(s) then Cached(View(s)[A2sPlayers])
            else Silence
        case Rules(challenge) =>
          if challenge != ours then OurChallenge else if A2sRules in View(s) then Cached(View(s)[A2sRules]) else Silence
  {
  }

  /** A proxy that is online has something cached. */
  lemma OnlineHasData(events: seq<Event>, threshold: nat)
    requires Possible(START, events, threshold) && OneAtATime(events)
    requires threshold >= 1 && OkFail.Monotonic(History(events)) && After(START, events, threshold).status.online
    ensures View(After(START, events, threshold)) != map[]
  {
    hide *;
    StatusIsRun(events, threshold);
    OkFail.OnlineRefinesHistory(History(events), threshold);
    var key := SuccessIsAnswer(events);
    ViewIsLastAnswers(events, threshold, key);
  }

  /** What clients can be given once they can be given for ever, through every swap of wait_ready. */
  lemma {:induction false} KeysStay(events: seq<Event>, threshold: nat, i: nat, key: CacheKey)
    requires Possible(START, events, threshold) && OneAtATime(events) && i <= |events|
    requires key in View(After(START, events[..i], threshold))
    ensures key in View(After(START, events, threshold))
  {
    if i < |events| {
      var before := events[..|events| - 1];
      assert before[..i] == events[..i];
      KeysStay(before, threshold, i, key);
      hide After, View, Possible, OneAtATime;
      assert Possible(START, before, threshold);
      ViewIsLastAnswers(before, threshold, key);
      ViewIsLastAnswers(events, threshold, key);
    } else {
      assert events[..i] == events;
    }
  }
}
