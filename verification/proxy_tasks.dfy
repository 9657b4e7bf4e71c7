/** QueryProxy as an object: the steps that its tasks take between two awaits. */
module ProxyTasks {
  import opened Outcomes
  import opened Wire
  import opened Proxy
  import Awaitable
  import Challenges
  import OkFail

  /** A dict, or an AwaitableDict. */
  datatype Dictionary = PlainDict(entries: Entries) | Awaiting(dict: Awaitable.AwaitableDict<CacheKey, Bytes>)

  ghost function Views(dicts: seq<Awaitable.AwaitableDict<CacheKey, Bytes>>): (r: seq<WaitDict>)
    reads dicts
    ensures |r| == |dicts| && forall i :: 0 <= i < |dicts| ==> r[i] == dicts[i].View()
  {
    if dicts == [] then [] else Views(dicts[..|dicts| - 1]) + [dicts[|dicts| - 1].View()]
  }

  /** The challenge of the packet that an updater starts with. */
  function OwnChallenge(key: CacheKey): Option<int> {
    if key.A2sInfo? then None else Some(EMPTY_CHALLENGE)
  }

  lemma StoreValid(s: State, key: CacheKey, data: Bytes)
    requires Proxy.Valid(s)
    ensures Proxy.Valid(Proxy.Store(s, key, data))
  {
    if s.cache.Wrapped? {
      Awaitable.SetValid(s.dicts[s.cache.id], key, data);
      hide Awaitable.Valid, Awaitable.DictSet;
    }
  }

  class QueryProxy {
    const ourChallenge: int
    const okfail: OkFail.LastOkFailCounter
    var online: bool
    var respCache: Dictionary
    /** Every AwaitableDict that wait_ready has made, which of them is `respCache`, and the callbacks so far. */
    ghost var made: seq<Awaitable.AwaitableDict<CacheKey, Bytes>>
    ghost var current: nat
    ghost var log: seq<OkFail.Callback>

    ghost function View(): State
      reads this, okfail, made
    {
      State(Health(), if respCache.PlainDict? then Plain(respCache.entries) else Wrapped(current), Views(made))
    }

    ghost function Health(): OkFail.Status
      reads this, okfail
    {
      OkFail.Status(okfail.View(), online, log)
    }

    ghost predicate Valid()
      reads this, okfail, made
    {
      && Proxy.Valid(View())
      && Linked()
    }

    ghost predicate Linked()
      reads this
    {
      && (respCache.Awaiting? ==> current < |made| && made[current] == respCache.dict)
      && forall i, j :: 0 <= i < j < |made| ==> made[i] != made[j]
    }

    /** `ourChallenge` stands for the random number. */
    constructor (failsThreshold: nat, ourChallenge: int)
      ensures Valid() && View() == START && fresh(okfail) && made == []
      ensures this.ourChallenge == ourChallenge && okfail.failsThreshold == failsThreshold
    {
      this.ourChallenge := ourChallenge;
      okfail := new OkFail.LastOkFailCounter(failsThreshold);
      online := false;
      respCache := PlainDict(map[]);
      made, current, log := [], 0, [];
    }

    lemma DictValid(id: nat)
      requires Valid() && id < |made|
      ensures Awaitable.Valid(made[id].View())
    {
      assert View().dicts[id] == made[id].View();
    }

    /** `_on_online` and `_on_offline` */
    method Notify(called: Option<OkFail.Callback>)
      modifies this`online, this`log
      ensures called == None ==> online == old(online) && log == old(log)
      ensures called.Some? ==> online == called.value.Up? && log == old(log) + [called.value]
    {
      if called.Some? {
        online := called.value == OkFail.Up;
        log := log + [called.value];
      }
    }

    /** `_okfail.ok()` or `_okfail.fail()` */
    method CountExchange(e: OkFail.Exchange)
      modifies this`online, this`log, okfail
      ensures Health() == OkFail.Step(old(Health()), e, okfail.failsThreshold)
    {
      var called: Option<OkFail.Callback>;
      if e.Success? {
        called := okfail.Ok(e.now);
      } else {
        called := okfail.Fail(e.now);
      }
      hide OkFail.OkStep, OkFail.FailStep;
      Notify(called);
    }

    /** The `except asyncio.TimeoutError` of an updater. */
    method TimedOut(now: real)
      requires Valid()
      modifies this`online, this`log, okfail
      ensures Valid() && View() == Step(old(View()), Event.TimedOut(now), okfail.failsThreshold)
    {
      StepView(View(), Event.TimedOut(now), okfail.failsThreshold);
      hide Proxy.Valid, Views, Health, OkFail.Step;
      CountExchange(OkFail.Timeout(now));
    }

    /** The `else` of an updater: the answer counts as a success and is cached, whatever it is. */
    method Answered(key: CacheKey, data: Bytes, now: real)
      requires Valid()
      modifies this`online, this`log, this`respCache, okfail, made
      ensures Valid() && View() == Step(old(View()), Event.Answered(key, data, now), okfail.failsThreshold)
    {
      StepView(View(), Event.TimedOut(now), okfail.failsThreshold);
      hide Proxy.Valid, Views, Health, OkFail.Step, Proxy.Store;
      CountExchange(OkFail.Success(now));
      Store(key, data);
    }

    /** One round of `_update_info`, `_update_players` or `_update_rules`; an exception other than a timeout
        starts the updater anew and changes nothing here. */
    method Update<M>(key: CacheKey, replies: seq<Challenges.Reply<M>>, now: real)
      returns (sends: seq<Option<int>>, r: Challenges.Result<M>)
      requires Valid()
      modifies this`online, this`log, this`respCache, okfail, made
      ensures Valid() && (sends, r) == Challenges.Conversation(OwnChallenge(key), replies)
      ensures sends != [] && sends[0] == if key == A2sInfo then None else Some(-1)
      ensures View() ==
        if r.Returned? then Step(old(View()), Event.Answered(key, r.data, now), okfail.failsThreshold)
        else if r.TimeoutError? then Step(old(View()), Event.TimedOut(now), okfail.failsThreshold)
        else old(View())
    {
      assert OwnChallenge(key) == if key == A2sInfo then None else Some(-1);
      sends, r := Challenges.SendRecvPacket(OwnChallenge(key), replies);
      Challenges.FollowsChallenges(OwnChallenge(key), replies);
      hide Step, Proxy.Valid, Views, Health, Linked, OwnChallenge, Challenges.Conversation;
      if r.Returned? {
        Answered(key, r.data, now);
      } else if r.TimeoutError? {
        TimedOut(now);
      }
    }

    /** `resp_cache[key] = data` */
    method Store(key: CacheKey, data: Bytes)
      requires Valid()
      modifies this`respCache, made
      ensures Valid() && View() == Proxy.Store(old(View()), key, data)
    {
      ghost var s := View();
      StoreValid(s, key, data);
      hide Proxy.Valid, Awaitable.Valid, Awaitable.Ready, Awaitable.DictSet, Awaitable.DictWait, Awaitable.DictCancel,
        OkFail.Step, Views;
      match respCache {
        case PlainDict(entries) =>
          respCache := PlainDict(entries[key := data]);
        case Awaiting(dict) =>
          DictValid(current);
          dict.SetItem(key, data);
          assert Views(made) == s.dicts[current := dict.View()];
      }
    }

    /** The dictionary of wait_ready replaces `resp_cache`. */
    method BeginWait() returns (dict: Awaitable.AwaitableDict<CacheKey, Bytes>)
      requires Valid()
      modifies this`respCache, this`made, this`current
      ensures Valid() && fresh(dict) && made == old(made) + [dict]
      ensures Enabled(old(View()), Event.BeginWait(dict.View()))
      ensures View() == Step(old(View()), Event.BeginWait(dict.View()), okfail.failsThreshold)
    {
      ghost var s := View();
      hide Proxy.Valid, Awaitable.Valid, Awaitable.Ready, Awaitable.DictSet, Awaitable.DictWait, Awaitable.DictCancel,
        OkFail.Step, Views;
      match respCache {
        case PlainDict(entries) => dict := new Awaitable.AwaitableDict(entries);
        case Awaiting(other) =>
          DictValid(current);
          var entries := other.ToDict();
          dict := new Awaitable.AwaitableDict(entries);
      }
      respCache := Awaiting(dict);
      current, made := |made|, made + [dict];
      assert Views(made) == s.dicts + [dict.View()];
      StepView(s, Event.BeginWait(dict.View()), okfail.failsThreshold);
    }

    /** One of the coroutines of wait_ready asks its dictionary for a key. */
    method WaitFor(dict: Awaitable.AwaitableDict<CacheKey, Bytes>, ghost id: nat, key: CacheKey) returns (future: nat)
      requires Valid() && id < |made| && made[id] == dict
      modifies dict
      ensures Valid() && View() == Step(old(View()), Event.WaitFor(id, key), okfail.failsThreshold)
      ensures future == Awaitable.DictWait(old(dict.View()), key).1
    {
      ghost var s := View();
      StepView(s, Event.WaitFor(id, key), okfail.failsThreshold);
      DictValid(id);
      hide Proxy.Valid, Awaitable.Valid, Awaitable.Ready, Awaitable.DictSet, Awaitable.DictWait, Awaitable.DictCancel,
        OkFail.Step, Views;
      future := dict.GetWait(key);
      assert Views(made) == s.dicts[id := dict.View()];
    }

    /** The graceful period is over and a coroutine is cancelled with the future it waits for. */
    method Abandon(dict: Awaitable.AwaitableDict<CacheKey, Bytes>, ghost id: nat, future: nat)
      requires Valid() && id < |made| && made[id] == dict
      modifies dict
      ensures Valid() && View() == Step(old(View()), Event.Abandon(id, future), okfail.failsThreshold)
    {
      ghost var s := View();
      StepView(s, Event.Abandon(id, future), okfail.failsThreshold);
      DictValid(id);
      hide Proxy.Valid, Awaitable.Valid, Awaitable.Ready, Awaitable.DictSet, Awaitable.DictWait, Awaitable.DictCancel,
        OkFail.Step, Views;
      dict.Cancel(future);
      assert Views(made) == s.dicts[id := dict.View()];
    }

    /** The `finally` of wait_ready. */
    method EndWait(dict: Awaitable.AwaitableDict<CacheKey, Bytes>, ghost id: nat)
      requires Valid() && id < |made| && made[id] == dict
      modifies this`respCache
      ensures Valid() && View() == Step(old(View()), Event.EndWait(id), okfail.failsThreshold)
    {
      DictValid(id);
      var entries := dict.ToDict();
      respCache := PlainDict(entries);
    }

    /** `resp_cache.get(key)` */
    method Lookup(key: CacheKey) returns (r: Response)
      requires Valid()
      ensures r == FromCache(Proxy.View(View()), key)
    {
      match respCache {
        case PlainDict(entries) =>
          r := if key in entries then Cached(entries[key]) else Silence;
        case Awaiting(dict) =>
          var found := dict.Get(key);
          r := if found.Some? then Cached(found.value) else Silence;
      }
    }

    /** get_response_for */
    method GetResponseFor(query: Query) returns (r: Response)
      requires Valid()
      ensures r == Proxy.GetResponseFor(View(), query, ourChallenge)
    {
      hide FromCache, Proxy.View, Valid;
      r := Silence;
      if query.Info? {
        r := Lookup(A2sInfo);
      } else if query.challenge == ourChallenge {
        if query.Players? {
          r := Lookup(A2sPlayers);
        } else {
          r := Lookup(A2sRules);
        }
      } else if ourChallenge != EMPTY_CHALLENGE {
        r := OurChallenge;
      }
    }

    /** One round of `_listen_client_requests`. */
    method Listen(request: Option<Query>, port: int) returns (r: Response)
      requires Valid()
      ensures r == Proxy.Listen(View(), request, port, ourChallenge)
    {
      if request == None || port == 0 || !online {
        return Silence;
      }
      hide Valid, Proxy.GetResponseFor;
      r := GetResponseFor(request.value);
    }
  }
}
