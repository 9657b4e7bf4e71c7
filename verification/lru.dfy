/** pylru.lrucache: a dictionary of bounded size, ordered by the last get or set. */
module Pylru {
  const CAPACITY: nat := 1024

  /** The keys from the least to the most recently used, and what they map to. */
  datatype Lru<V> = Lru(order: seq<int>, items: map<int, V>)

  ghost predicate ValidLru<V>(l: Lru<V>) {
    && (forall i, j :: 0 <= i < j < |l.order| ==> l.order[i] != l.order[j])
    && (forall k :: k in l.order <==> k in l.items)
    && |l.order| <= CAPACITY
  }

  function Without(order: seq<int>, k: int): (r: seq<int>)
    ensures k !in r
    ensures forall x :: x in r <==> x in order && x != k
    ensures |r| <= |order| && (k in order ==> |r| < |order|) && (k !in order ==> r == order)
  {
    if order == [] then []
    else if order[0] == k then Without(order[1..], k)
    else [order[0]] + Without(order[1..], k)
  }

  lemma {:induction false} WithoutDistinct(order: seq<int>, k: int)
    requires forall i, j :: 0 <= i < j < |order| ==> order[i] != order[j]
    ensures forall i, j :: 0 <= i < j < |Without(order, k)| ==> Without(order, k)[i] != Without(order, k)[j]
    ensures k in order ==> |Without(order, k)| == |order| - 1
  {
    if order != [] {
      WithoutDistinct(order[1..], k);
      assert order == [order[0]] + order[1..];
      assert order[0] !in order[1..];
    }
  }

  /** `cache[k]` for a present key. */
  function Touch<V>(l: Lru<V>, k: int): Lru<V> {
    Lru(Without(l.order, k) + [k], l.items)
  }

  /** `cache[k] = v`: a present key is updated and becomes the newest, a new key evicts the oldest from a full
      cache. */
  function Put<V>(l: Lru<V>, k: int, v: V): Lru<V> {
    if k in l.items then Lru(Without(l.order, k) + [k], l.items[k := v])
    else if |l.order| < CAPACITY then Lru(l.order + [k], l.items[k := v])
    else Lru(l.order[1..] + [k], (l.items - {l.order[0]})[k := v])
  }

  /** `cache.pop(k, None)` */
  function Drop<V>(l: Lru<V>, k: int): Lru<V> {
    Lru(Without(l.order, k), l.items - {k})
  }

  lemma TouchValid<V>(l: Lru<V>, k: int)
    requires ValidLru(l) && k in l.items
    ensures ValidLru(Touch(l, k)) && Touch(l, k).items == l.items
    ensures Touch(l, k).order != [] && Touch(l, k).order[|Touch(l, k).order| - 1] == k
  {
    WithoutDistinct(l.order, k);
  }

  lemma DropValid<V>(l: Lru<V>, k: int)
    requires ValidLru(l)
    ensures ValidLru(Drop(l, k)) && k !in Drop(l, k).items
    ensures forall x :: x in l.items && x != k ==> x in Drop(l, k).items && Drop(l, k).items[x] == l.items[x]
  {
    WithoutDistinct(l.order, k);
  }

  /** The three cases of `Put`. */
  lemma PutPresent<V>(l: Lru<V>, k: int, v: V)
    requires ValidLru(l) && k in l.items
    ensures ValidLru(Put(l, k, v)) && Put(l, k, v).order == Without(l.order, k) + [k]
  {
    WithoutDistinct(l.order, k);
  }

  lemma PutNew<V>(l: Lru<V>, k: int, v: V)
    requires ValidLru(l) && k !in l.items && |l.order| < CAPACITY
    ensures ValidLru(Put(l, k, v)) && Put(l, k, v).order == l.order + [k]
  {
  }

  lemma PutFull<V>(l: Lru<V>, k: int, v: V)
    requires ValidLru(l) && k !in l.items && |l.order| == CAPACITY
    ensures ValidLru(Put(l, k, v)) && Put(l, k, v).order == l.order[1..] + [k]
  {
    var rest := l.order[1..];
    assert l.order == [l.order[0]] + rest;
    assert forall x :: x in rest <==> x in l.order && x != l.order[0];
    assert forall i :: 0 <= i < |rest| ==> rest[i] == l.order[i + 1];
  }

  lemma PutValid<V>(l: Lru<V>, k: int, v: V)
    requires ValidLru(l)
    ensures ValidLru(Put(l, k, v)) && k in Put(l, k, v).items && Put(l, k, v).items[k] == v
    ensures Put(l, k, v).order != [] && Put(l, k, v).order[|Put(l, k, v).order| - 1] == k
    ensures forall x :: x in Put(l, k, v).items && x != k ==> x in l.items && Put(l, k, v).items[x] == l.items[x]
    ensures forall x :: x in l.items && x !in Put(l, k, v).items ==>
      k !in l.items && |l.order| == 1024 && x == l.order[0]
    ensures |Put(l, k, v).order| <= 1024
  {
    assert |l.order| <= CAPACITY;
    hide ValidLru, Without;
    if k in l.items {
      PutPresent(l, k, v);
    } else if |l.order| < CAPACITY {
      PutNew(l, k, v);
    } else {
      PutFull(l, k, v);
    }
  }

  /** The cache as an object. */
  class LruCache<V> {
    var order: seq<int>
    var items: map<int, V>

    ghost function View(): Lru<V>
      reads this
    {
      Lru(order, items)
    }

    constructor ()
      ensures View() == Lru([], map[]) && ValidLru(View())
    {
      order, items := [], map[];
    }

    /** `k in cache` does not touch the order. */
    predicate Contains(k: int)
      reads this
    {
      k in items
    }

    method Get(k: int) returns (v: V)
      requires ValidLru(View()) && Contains(k)
      modifies this
      ensures ValidLru(View()) && View() == Touch(old(View()), k)
      ensures v == items[k]
    {
      TouchValid(View(), k);
      order := Without(order, k) + [k];
      v := items[k];
    }

    method Set(k: int, v: V)
      requires ValidLru(View())
      modifies this
      ensures ValidLru(View()) && View() == Put(old(View()), k, v)
    {
      PutValid(View(), k, v);
      if k in items {
        order := Without(order, k) + [k];
      } else if |order| < CAPACITY {
        order := order + [k];
      } else {
        items := items - {order[0]};
        order := order[1..] + [k];
      }
      items := items[k := v];
    }

    method Pop(k: int)
      requires ValidLru(View())
      modifies this
      ensures ValidLru(View()) && View() == Drop(old(View()), k)
    {
      DropValid(View(), k);
      order := Without(order, k);
      items := items - {k};
    }
  }

  // ---------------------------------------------------------------- who can be evicted

  /** Every key that is newer than `k` is in `touched`. */
  ghost predicate NewerIn<V>(l: Lru<V>, k: int, touched: set<int>) {
    k in l.items && forall i, j :: 0 <= i < j < |l.order| && l.order[i] == k ==> l.order[j] in touched
  }

  lemma TouchNewest<V>(l: Lru<V>, k: int)
    requires ValidLru(l) && k in l.items
    ensures NewerIn(Touch(l, k), k, {})
  {
  }

  lemma PutNewest<V>(l: Lru<V>, k: int, v: V)
    requires ValidLru(l)
    ensures NewerIn(Put(l, k, v), k, {})
  {
    PutValid(l, k, v);
    var r := Put(l, k, v);
    assert r.order[|r.order| - 1] == k;
  }

  /** Leaving out another key keeps what is newer. */
  lemma {:induction false} WithoutNewer(order: seq<int>, x: int, k: int, touched: set<int>)
    requires x != k
    requires forall i, j :: 0 <= i < j < |order| && order[i] == k ==> order[j] in touched
    ensures forall i, j :: 0 <= i < j < |Without(order, x)| && Without(order, x)[i] == k ==>
      Without(order, x)[j] in touched
  {
    if order != [] {
      var rest := order[1..];
      assert forall i, j :: 0 <= i < j < |rest| && rest[i] == k ==> rest[j] in touched by {
        forall i, j | 0 <= i < j < |rest| && rest[i] == k ensures rest[j] in touched {
          assert order[i + 1] == k && order[j + 1] == rest[j];
        }
      }
      WithoutNewer(rest, x, k, touched);
      if order[0] == k {
        forall y | y in Without(rest, x) ensures y in touched {
          var j :| 0 <= j < |rest| && rest[j] == y;
          assert order[j + 1] == y;
        }
      }
    }
  }

  lemma TouchKeepsNewer<V>(l: Lru<V>, x: int, k: int, touched: set<int>)
    requires ValidLru(l) && x in l.items && x != k && NewerIn(l, k, touched)
    ensures NewerIn(Touch(l, x), k, touched + {x})
  {
    WithoutNewer(l.order, x, k, touched);
  }

  lemma DropKeepsNewer<V>(l: Lru<V>, x: int, k: int, touched: set<int>)
    requires ValidLru(l) && x != k && NewerIn(l, k, touched)
    ensures NewerIn(Drop(l, x), k, touched)
  {
    WithoutNewer(l.order, x, k, touched);
  }

  /** Putting another key evicts `k` only if 1024 keys, counting the new one, were touched since `k` was. */
  lemma PutKeepsNewer<V>(l: Lru<V>, x: int, v: V, k: int, touched: set<int>)
    requires ValidLru(l) && x != k && NewerIn(l, k, touched)
    ensures NewerIn(Put(l, x, v), k, touched + {x}) || |touched + {x}| >= CAPACITY
  {
    WithoutNewer(l.order, x, k, touched);
    if x !in l.items && |l.order| == CAPACITY {
      if l.order[0] == k {
        var newer := l.order[1..] + [x];
        assert forall y :: y in newer ==> y in touched + {x} by {
          forall y | y in l.order[1..] ensures y in touched {
            var j :| 0 <= j < |l.order[1..]| && l.order[1..][j] == y;
            assert l.order[j + 1] == y;
          }
        }
        DistinctBounded(newer, touched + {x});
      } else {
        assert forall i :: 0 <= i < |l.order[1..]| ==> l.order[1..][i] == l.order[i + 1];
      }
    }
  }

  /** Pigeonhole: distinct elements of a set are no more than the set has. */
  lemma {:induction false} DistinctBounded(xs: seq<int>, s: set<int>)
    requires forall i, j :: 0 <= i < j < |xs| ==> xs[i] != xs[j]
    requires forall x :: x in xs ==> x in s
    ensures |xs| <= |s|
  {
    if xs != [] {
      var first, rest := xs[0], xs[1..];
      assert first in xs && first in s;
      assert forall i :: 0 <= i < |rest| ==> rest[i] == xs[i + 1] && rest[i] in xs;
      assert s == (s - {first}) + {first};
      DistinctBounded(rest, s - {first});
    }
  }
}
