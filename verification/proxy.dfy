/** QueryProxy as a state machine: the code between two awaits is one step. */
module Proxy {
  import opened Outcomes
  import opened Wire
  import Awaitable
  import OkFail

  datatype CacheKey = A2sInfo | A2sPlayers | A2sRules

  type Entries = map<CacheKey, Bytes>

  type WaitDict = Awaitable.Dict<CacheKey, Bytes>

  /** `resp_cache` is a plain dictionary, or one of the AwaitableDicts that were made. */
  datatype RespCache = Plain(entries: Entries) | Wrapped(id: nat)

  datatype State = State(status: OkFail.Status, cache: RespCache, dicts: seq<WaitDict>)

  const START: State := State(OkFail.OFFLINE, Plain(map[]), [])

  /** What `resp_cache.get` sees. */
  function View(s: State): Entries {
    match s.cache
    case Plain(entries) => entries
    case Wrapped(id) => if id < |s.dicts| then Awaitable.Ready(s.dicts[id]) else map[]
  }

  datatype Event =
    | TimedOut(now: real)
    | Answered(key: CacheKey, data: Bytes, now: real)
    | BeginWait(wrapped: WaitDict)
    | WaitFor(id: nat, key: CacheKey)
    | Abandon(id: nat, future: nat)
    | EndWait(id: nat)

  /** `resp_cache[key] = data` */
  function Store(s: State, key: CacheKey, data: Bytes): State {
    match s.cache
    case Plain(entries) => s.(cache := Plain(entries[key := data]))
    case Wrapped(id) => if id < |s.dicts| then s.(dicts := s.dicts[id := Awaitable.DictSet(s.dicts[id], key, data)])
      else s
  }

  function Step(s: State, e: Event, threshold: nat): State {
    match e
    case TimedOut(now) => s.(status := OkFail.Step(s.status, OkFail.Timeout(now), threshold))
    case Answered(key, data, now) => Store(s.(status := OkFail.Step(s.status, OkFail.Success(now), threshold)), key,
      data)
    case BeginWait(wrapped) => s.(cache := Wrapped(|s.dicts|), dicts := s.dicts + [wrapped])
    case WaitFor(id, key) =>
      if id < |s.dicts| then s.(dicts := s.dicts[id := Awaitable.DictWait(s.dicts[id], key).0]) else s
    case Abandon(id, future) =>
      if id < |s.dicts| then s.(dicts := s.dicts[id := Awaitable.DictCancel(s.dicts[id], future)]) else s
    case EndWait(id) => if id < |s.dicts| then s.(cache := Plain(Awaitable.Ready(s.dicts[id]))) else s
  }

  ghost predicate Valid(s: State) {
    && (forall i :: 0 <= i < |s.dicts| ==> Awaitable.Valid(s.dicts[i]))
    && (s.cache.Wrapped? ==> s.cache.id < |s.dicts|)
  }

  /** AwaitableDict(resp_cache) holds what resp_cache shows; only a dictionary that was made can be used. */
  ghost predicate Enabled(s: State, e: Event) {
    match e
    case BeginWait(wrapped) => Awaitable.Valid(wrapped) && Awaitable.Ready(wrapped) == View(s)
    case WaitFor(id, _) => id < |s.dicts|
    case Abandon(id, _) => id < |s.dicts|
    case EndWait(id) => id < |s.dicts|
    case _ => true
  }

  /** One step: only an answer changes what clients can see, and then only its own key, except when a wait ends whose
      dictionary shows something else. */
  lemma StepView(s: State, e: Event, threshold: nat)
    requires Valid(s) && Enabled(s, e)
    ensures Valid(Step(s, e, threshold))
    ensures View(Step(s, e, threshold)) ==
      match e
      case Answered(key, data, _) => View(s)[key := data]
      case EndWait(id) => Awaitable.Ready(s.dicts[id])
      case _ => View(s)
  {
    hide Awaitable.Ready, Awaitable.Valid, Awaitable.DictSet, Awaitable.DictWait, Awaitable.DictCancel, OkFail.Step;
    match e {
      case Answered(key, data, _) =>
        if s.cache.Wrapped? {
          Awaitable.SetValid(s.dicts[s.cache.id], key, data);
          Awaitable.SetReady(s.dicts[s.cache.id], key, data);
        }
      case WaitFor(id, key) =>
        Awaitable.WaitValid(s.dicts[id], key);
        Awaitable.WaitReady(s.dicts[id], key);
      case Abandon(id, future) =>
        Awaitable.CancelReady(s.dicts[id], future);
      case _ =>
    }
  }

  /** A dictionary changes its ready entries only by answers while it is the cache. */
  lemma StepDict(s: State, e: Event, threshold: nat, id: nat)
    requires Valid(s) && Enabled(s, e) && id < |s.dicts|
    ensures id < |Step(s, e, threshold).dicts|
    ensures !(e.Answered? && s.cache == Wrapped(id)) ==>
      Awaitable.Ready(Step(s, e, threshold).dicts[id]) == Awaitable.Ready(s.dicts[id])
  {
    hide Awaitable.Ready, Awaitable.Valid, Awaitable.DictSet, Awaitable.DictWait, Awaitable.DictCancel, OkFail.Step;
    match e {
      case WaitFor(i, key) => Awaitable.WaitReady(s.dicts[i], key);
      case Abandon(i, future) => Awaitable.CancelReady(s.dicts[i], future);
      case _ =>
    }
  }

  // ---------------------------------------------------------------- answering clients

  /** A request that was decoded. */
  datatype Query = Info | Players(challenge: int) | Rules(challenge: int)

  /** `None`, the GetChallengeResponse with our challenge, or bytes of the cache. */
  datatype Response = Silence | OurChallenge | Cached(data: Bytes)

  function FromCache(entries: Entries, key: CacheKey): Response {
    if key in entries then Cached(entries[key]) else Silence
  }

  const EMPTY_CHALLENGE: int := -1

  function GetResponseFor(s: State, query: Query, ours: int): Response {
    match query
    case Info => FromCache(View(s), A2sInfo)
    case Players(challenge) => if challenge == ours then FromCache(View(s), A2sPlayers) else Challenge(ours)
    case Rules(challenge) => if challenge == ours then FromCache(View(s), A2sRules) else Challenge(ours)
  }

  function Challenge(ours: int): Response {
    if ours != EMPTY_CHALLENGE then OurChallenge else Silence
  }

  /** One round of the listener: what it sends back for a datagram (None when it could not be decoded). */
  function Listen(s: State, request: Option<Query>, port: int, ours: int): Response {
    if request.None? || port == 0 || !s.status.online then Silence else GetResponseFor(s, request.value, ours)
  }
}
