/** AwaitableDict: a dictionary whose values are futures. */
module Awaitable {
  import opened Outcomes

  datatype Future<V> = Unset | Done(value: V) | Cancelled

  /** The futures that were ever made, in order, and which of them each key holds. */
  datatype Dict<K, V> = Dict(data: map<K, nat>, futures: seq<Future<V>>)

  ghost predicate Valid<K, V>(d: Dict<K, V>) {
    && (forall k :: k in d.data ==> d.data[k] < |d.futures|)
    && (forall j, k :: j in d.data && k in d.data && j != k ==> d.data[j] != d.data[k])
  }

  /** The entries that iteration and indexing see. */
  function Ready<K, V>(d: Dict<K, V>): map<K, V> {
    map k | k in d.data && d.data[k] < |d.futures| && d.futures[d.data[k]].Done? :: d.futures[d.data[k]].value
  }

  /** `__setitem__` */
  function DictSet<K, V>(d: Dict<K, V>, key: K, value: V): Dict<K, V> {
    if key in d.data && d.data[key] < |d.futures| && d.futures[d.data[key]].Unset? then
      Dict(d.data, d.futures[d.data[key] := Done(value)])
    else
      Dict(d.data[key := |d.futures|], d.futures + [Done(value)])
  }

  /** `get_wait`, up to the await; the future that is awaited is returned. */
  function DictWait<K, V>(d: Dict<K, V>, key: K): (Dict<K, V>, nat) {
    if key in d.data then (d, d.data[key])
    else (Dict(d.data[key := |d.futures|], d.futures + [Unset]), |d.futures|)
  }

  /** Cancelling a future does nothing when it is done. */
  function DictCancel<K, V>(d: Dict<K, V>, future: nat): Dict<K, V> {
    if future < |d.futures| && d.futures[future].Unset? then Dict(d.data, d.futures[future := Cancelled]) else d
  }

  ghost predicate Parts<K, V>(m: map<K, V>, rest: map<K, V>, all: map<K, V>) {
    m.Keys !! rest.Keys && m + rest == all
  }

  lemma Moved<K, V>(m: map<K, V>, rest: map<K, V>, all: map<K, V>, k: K)
    requires Parts(m, rest, all) && k in rest
    ensures Parts(m[k := rest[k]], rest - {k}, all)
  {
  }

  lemma NoneMoved<K, V>(all: map<K, V>)
    ensures Valid<K, V>(Dict(map[], [])) && Parts(Ready<K, V>(Dict(map[], [])), all, all)
  {
    assert Ready<K, V>(Dict(map[], [])) == map[];
    assert map[] + all == all;
  }

  lemma AllMoved<K, V>(m: map<K, V>, all: map<K, V>)
    requires Parts(m, map[], all)
    ensures m == all
  {
    assert m + map[] == m;
  }

  class AwaitableDict<K(==), V> {
    var data: map<K, nat>
    var futures: seq<Future<V>>

    ghost function View(): Dict<K, V>
      reads this
    {
      Dict(data, futures)
    }

    /** AwaitableDict(other): every entry of the other dictionary is set. */
    constructor (other: map<K, V>)
      ensures Valid(View()) && Ready(View()) == other
    {
      data, futures := map[], [];
      new;
      var rest := other;
      NoneMoved(other);
      hide Ready, Valid, Parts;
      while rest != map[]
        invariant Valid(View())
        invariant Parts(Ready(View()), rest, other)
        decreases |rest|
      {
        var k :| k in rest;
        ghost var ready := Ready(View());
        SetValid(View(), k, rest[k]);
        SetReady(View(), k, rest[k]);
        SetItem(k, rest[k]);
        Moved(ready, rest, other, k);
        rest := rest - {k};
      }
      AllMoved(Ready(View()), other);
    }

    method SetItem(key: K, value: V)
      requires Valid(View())
      modifies this
      ensures Valid(View()) && View() == DictSet(old(View()), key, value)
    {
      if key in data {
        var future := data[key];
        if !futures[future].Unset? {
          future := |futures|;
          data, futures := data[key := future], futures + [Unset];
        }
        futures := futures[future := Done(value)];
      } else {
        data, futures := data[key := |futures|], futures + [Done(value)];
      }
    }

    /** `get(key)`: KeyError for a future that is not done gives the default. */
    function Get(key: K): Option<V>
      requires Valid(View())
      reads this
    {
      if key in data && futures[data[key]].Done? then Some(futures[data[key]].value) else None
    }

    method GetWait(key: K) returns (future: nat)
      requires Valid(View())
      modifies this
      ensures Valid(View()) && (View(), future) == DictWait(old(View()), key)
    {
      if key !in data {
        future := |futures|;
        data, futures := data[key := future], futures + [Unset];
      } else {
        future := data[key];
      }
    }

    method Cancel(future: nat)
      requires Valid(View())
      modifies this
      ensures Valid(View()) && View() == DictCancel(old(View()), future)
    {
      if future < |futures| && futures[future].Unset? {
        futures := futures[future := Cancelled];
      }
    }

    /** dict(self): exactly the keys that `get` finds, with the values that it gives. */
    function ToDict(): (m: map<K, V>)
      requires Valid(View())
      reads this
      ensures m == Ready(View())
      ensures m.Keys <= data.Keys && forall k :: k in data ==> (k in m <==> Get(k).Some?)
      ensures forall k :: k in m ==> Get(k) == Some(m[k])
    {
      map k | k in data && data[k] < |futures| && futures[data[k]].Done? :: futures[data[k]].value
    }
  }

  // ---------------------------------------------------------------- what any interleaving gives

  datatype Op<K, V> = Set(key: K, value: V) | Wait(key: K) | Abandon(future: nat)

  function Apply<K, V>(d: Dict<K, V>, op: Op<K, V>): Dict<K, V> {
    match op
    case Set(key, value) => DictSet(d, key, value)
    case Wait(key) => DictWait(d, key).0
    case Abandon(future) => DictCancel(d, future)
  }

  function After<K, V>(d: Dict<K, V>, ops: seq<Op<K, V>>): Dict<K, V>
    decreases |ops|
  {
    if ops == [] then d else After(Apply(d, ops[0]), ops[1..])
  }

  /** The same writes on an ordinary dictionary. */
  function Writes<K, V>(m: map<K, V>, ops: seq<Op<K, V>>): map<K, V>
    decreases |ops|
  {
    if ops == [] then m else Writes(if ops[0].Set? then m[ops[0].key := ops[0].value] else m, ops[1..])
  }

  /** The future that a key holds, if there is one. */
  function At<K, V>(d: Dict<K, V>, k: K): Option<Future<V>> {
    if k in d.data && d.data[k] < |d.futures| then Some(d.futures[d.data[k]]) else None
  }

  lemma ReadyAt<K, V>(d: Dict<K, V>, k: K)
    ensures k in Ready(d) <==> At(d, k).Some? && At(d, k).value.Done?
    ensures k in Ready(d) ==> At(d, k) == Some(Done(Ready(d)[k]))
  {
  }

  lemma SetAt<K, V>(d: Dict<K, V>, key: K, value: V, k: K)
    requires Valid(d)
    ensures At(DictSet(d, key, value), k) == if k == key then Some(Done(value)) else At(d, k)
  {
  }

  lemma SetValid<K, V>(d: Dict<K, V>, key: K, value: V)
    requires Valid(d)
    ensures Valid(DictSet(d, key, value))
  {
    var d1 := DictSet(d, key, value);
    assert |d.futures| <= |d1.futures|;
    forall j, k | j in d1.data && k in d1.data && j != k ensures d1.data[j] != d1.data[k] {
      if j != key { assert d1.data[j] == d.data[j]; }
      if k != key { assert d1.data[k] == d.data[k]; }
    }
  }

  lemma SetReady<K, V>(d: Dict<K, V>, key: K, value: V)
    requires Valid(d)
    ensures Ready(DictSet(d, key, value)) == Ready(d)[key := value]
  {
    hide Valid, DictSet, At, Ready;
    var d1, updated := DictSet(d, key, value), Ready(d)[key := value];
    forall k | k in Ready(d1) ensures k in updated {
      SetAt(d, key, value, k);
      ReadyAt(d, k);
      ReadyAt(d1, k);
    }
    forall k | k in updated ensures k in Ready(d1) && Ready(d1)[k] == updated[k] {
      SetAt(d, key, value, k);
      ReadyAt(d, k);
      ReadyAt(d1, k);
    }
  }

  lemma WaitValid<K, V>(d: Dict<K, V>, key: K)
    requires Valid(d)
    ensures Valid(DictWait(d, key).0)
    ensures key in DictWait(d, key).0.data && DictWait(d, key).0.data[key] == DictWait(d, key).1
  {
  }

  lemma WaitAt<K, V>(d: Dict<K, V>, key: K, k: K)
    requires Valid(d)
    ensures At(DictWait(d, key).0, k) == if k == key && key !in d.data then Some(Unset) else At(d, k)
  {
  }

  lemma WaitReady<K, V>(d: Dict<K, V>, key: K)
    requires Valid(d)
    ensures Ready(DictWait(d, key).0) == Ready(d)
  {
    var d1 := DictWait(d, key).0;
    assert key !in d.data ==> At(d, key) == None;
    hide Valid, DictWait, At, Ready;
    forall k ensures k in Ready(d1) <==> k in Ready(d) {
      WaitAt(d, key, k);
      ReadyAt(d, k);
      ReadyAt(d1, k);
    }
    forall k | k in Ready(d1) ensures Ready(d1)[k] == Ready(d)[k] {
      WaitAt(d, key, k);
      ReadyAt(d, k);
      ReadyAt(d1, k);
    }
  }

  lemma CancelReady<K, V>(d: Dict<K, V>, future: nat)
    requires Valid(d)
    ensures Valid(DictCancel(d, future)) && Ready(DictCancel(d, future)) == Ready(d)
  {
  }

  lemma ApplyReady<K, V>(d: Dict<K, V>, op: Op<K, V>)
    requires Valid(d)
    ensures Valid(Apply(d, op))
    ensures Ready(Apply(d, op)) == if op.Set? then Ready(d)[op.key := op.value] else Ready(d)
  {
    hide Valid, Ready, DictSet, DictWait, DictCancel;
    match op
    case Set(key, value) => SetValid(d, key, value); SetReady(d, key, value);
    case Wait(key) => WaitValid(d, key); WaitReady(d, key);
    case Abandon(future) => CancelReady(d, future);
  }

  /** Under any interleaving of sets, waits and cancellations the ready entries are those of an ordinary
      dictionary given the same writes. */
  lemma {:induction false} RefinesPlainDict<K, V>(d: Dict<K, V>, ops: seq<Op<K, V>>)
    requires Valid(d)
    ensures Valid(After(d, ops)) && Ready(After(d, ops)) == Writes(Ready(d), ops)
    decreases |ops|
  {
    if ops != [] {
      ApplyReady(d, ops[0]);
      RefinesPlainDict(Apply(d, ops[0]), ops[1..]);
    }
  }

  /** What settles a future of a key that is waited for: the first value written to the key, unless it is abandoned
      before. */
  function Settled<K(==), V>(ops: seq<Op<K, V>>, key: K, future: nat): Future<V> {
    if ops == [] then Unset
    else if ops[0].Set? && ops[0].key == key then Done(ops[0].value)
    else if ops[0] == Abandon(future) then Cancelled
    else Settled(ops[1..], key, future)
  }

  lemma {:induction false} DoneStays<K, V>(d: Dict<K, V>, ops: seq<Op<K, V>>, future: nat)
    requires Valid(d) && future < |d.futures| && !d.futures[future].Unset?
    ensures future < |After(d, ops).futures| && After(d, ops).futures[future] == d.futures[future]
    decreases |ops|
  {
    if ops != [] {
      ApplyReady(d, ops[0]);
      DoneStays(Apply(d, ops[0]), ops[1..], future);
    }
  }

  lemma {:induction false} UnsetSettles<K, V>(d: Dict<K, V>, key: K, ops: seq<Op<K, V>>)
    requires Valid(d) && key in d.data && d.futures[d.data[key]].Unset?
    ensures
      var future := d.data[key];
      future < |After(d, ops).futures| && After(d, ops).futures[future] == Settled(ops, key, future)
    decreases |ops|
  {
    if ops != [] {
      var d', future := Apply(d, ops[0]), d.data[key];
      ApplyReady(d, ops[0]);
      if (ops[0].Set? && ops[0].key == key) || ops[0] == Abandon(future) {
        DoneStays(d', ops[1..], future);
      } else {
        UnsetSettles(d', key, ops[1..]);
      }
    }
  }

  /** How a wait ends, whatever happens after it: with the current value; cancelled, if it shares a future that was
      cancelled before; with the first value written to the key, or cancelled when it is abandoned before that; and
      until then it goes on waiting. */
  lemma WaitReturns<K, V>(d: Dict<K, V>, key: K, ops: seq<Op<K, V>>)
    requires Valid(d)
    ensures
      var (d1, future) := DictWait(d, key);
      future < |After(d1, ops).futures| &&
      After(d1, ops).futures[future] ==
        if key in Ready(d) then Done(Ready(d)[key])
        else if At(d, key) == Some(Cancelled) then Cancelled
        else Settled(ops, key, future)
  {
    var (d1, future) := DictWait(d, key);
    ApplyReady(d, Wait(key));
    if d1.futures[future].Unset? {
      UnsetSettles(d1, key, ops);
    } else {
      DoneStays(d1, ops, future);
    }
  }
}
