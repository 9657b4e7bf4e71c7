/** dict_merge: the recursive merge of configuration trees, and its algebra. */
module DictMerge {
  import opened Outcomes

  /** What YAML gives for anything but a dictionary; only null, truth values and emptiness matter here. */
  datatype Scalar = Null | Bool(value: bool) | Atom(id: int, empty: bool)

  datatype Tree = Leaf(value: Scalar) | Node(entries: map<string, Tree>)

  /** dict_merge(base, over) for two dictionaries; in every other case the second argument replaces the first. */
  function Merge(base: Tree, over: Tree): Tree
    decreases over
  {
    if base.Leaf? || over.Leaf? then over else
    Node(map k | k in base.entries.Keys + over.entries.Keys ::
      if k !in over.entries then base.entries[k]
      else if k !in base.entries then over.entries[k]
      else Merge(base.entries[k], over.entries[k]))
  }

  /** One key of a merge. */
  lemma MergeAt(base: Tree, over: Tree, k: string)
    requires base.Node? && over.Node?
    ensures Merge(base, over).Node?
    ensures k in Merge(base, over).entries <==> k in base.entries || k in over.entries
    ensures k in over.entries ==>
      Merge(base, over).entries[k] ==
        if k in base.entries then Merge(base.entries[k], over.entries[k]) else over.entries[k]
    ensures k in base.entries && k !in over.entries ==> Merge(base, over).entries[k] == base.entries[k]
  {
  }

  lemma SameEntries(a: Tree, b: Tree)
    requires a.Node? && b.Node?
    requires forall k :: k in a.entries <==> k in b.entries
    requires forall k :: k in a.entries ==> a.entries[k] == b.entries[k]
    ensures a == b
  {
    assert a.entries == b.entries;
  }

  /** Every dictionary of `part` is one in `whole` too, with at least its keys, unless `whole` holds a leaf there. */
  predicate Covers(whole: Tree, part: Tree)
    decreases part
  {
    whole.Node? && part.Node? ==>
      forall k :: k in part.entries ==> k in whole.entries && Covers(whole.entries[k], part.entries[k])
  }

  lemma {:induction false} CoversItself(t: Tree)
    ensures Covers(t, t)
    decreases t
  {
    if t.Node? {
      forall k | k in t.entries ensures Covers(t.entries[k], t.entries[k]) {
        CoversItself(t.entries[k]);
      }
    }
  }

  /** Defaults change nothing exactly when every key of theirs is there already. */
  lemma {:induction false} NothingToAdd(base: Tree, over: Tree)
    ensures Merge(base, over) == over <==> Covers(over, base)
    decreases over
  {
    if base.Node? && over.Node? {
      var m := Merge(base, over);
      forall k | k in base.entries && k in over.entries
        ensures Merge(base.entries[k], over.entries[k]) == over.entries[k] <==> Covers(over.entries[k], base.entries[k])
      {
        NothingToAdd(base.entries[k], over.entries[k]);
      }
      if Covers(over, base) {
        SameEntries(m, over);
      } else if m == over {
        forall k | k in base.entries ensures k in over.entries && Covers(over.entries[k], base.entries[k]) {
          MergeAt(base, over, k);
        }
        assert false;
      }
    }
  }

  /** dict_merge(t, t) == t */
  lemma Idempotent(t: Tree)
    ensures Merge(t, t) == t
  {
    CoversItself(t);
    NothingToAdd(t, t);
  }

  lemma {:induction false} MergeCovers(base: Tree, over: Tree)
    ensures Covers(Merge(base, over), base)
    decreases over
  {
    if base.Node? && over.Node? {
      forall k | k in base.entries
        ensures k in Merge(base, over).entries && Covers(Merge(base, over).entries[k], base.entries[k])
      {
        MergeAt(base, over, k);
        if k in over.entries {
          MergeCovers(base.entries[k], over.entries[k]);
        } else {
          CoversItself(base.entries[k]);
        }
      }
    }
  }

  /** What is covered stays covered under more defaults. */
  lemma {:induction false} StaysCovered(base: Tree, over: Tree, part: Tree)
    requires Covers(over, part)
    ensures Covers(Merge(base, over), part)
    decreases part
  {
    if base.Node? && over.Node? && part.Node? {
      forall k | k in part.entries
        ensures k in Merge(base, over).entries && Covers(Merge(base, over).entries[k], part.entries[k])
      {
        MergeAt(base, over, k);
        if k in base.entries {
          StaysCovered(base.entries[k], over.entries[k], part.entries[k]);
        }
      }
    }
  }

  /** dict_merge(d, dict_merge(d, t)) == dict_merge(d, t): applying defaults twice is applying them once. */
  lemma Absorbs(d: Tree, t: Tree)
    ensures Merge(d, Merge(d, t)) == Merge(d, t)
  {
    MergeCovers(d, t);
    NothingToAdd(d, Merge(d, t));
  }

  // ---------------------------------------------------------------- associativity

  /** Wherever `b` has a leaf between two dictionaries, the last dictionary leaves nothing of the first to be seen. */
  predicate NoLeafBetween(a: Tree, b: Tree, c: Tree)
    decreases c
  {
    if a.Node? && b.Node? && c.Node? then
      forall k :: k in a.entries && k in b.entries && k in c.entries ==>
        NoLeafBetween(a.entries[k], b.entries[k], c.entries[k])
    else if a.Node? && b.Leaf? && c.Node? then Covers(c, a)
    else true
  }

  lemma AssociativeAt(a: Tree, b: Tree, c: Tree, k: string)
    requires a.Node? && b.Node? && c.Node?
    ensures k in Merge(Merge(a, b), c).entries <==> k in Merge(a, Merge(b, c)).entries
    ensures k in Merge(Merge(a, b), c).entries && !(k in a.entries && k in b.entries && k in c.entries) ==>
      Merge(Merge(a, b), c).entries[k] == Merge(a, Merge(b, c)).entries[k]
    ensures k in a.entries && k in b.entries && k in c.entries ==>
      Merge(Merge(a, b), c).entries[k] == Merge(Merge(a.entries[k], b.entries[k]), c.entries[k]) &&
      Merge(a, Merge(b, c)).entries[k] == Merge(a.entries[k], Merge(b.entries[k], c.entries[k]))
  {
    MergeAt(a, b, k);
    MergeAt(b, c, k);
    MergeAt(Merge(a, b), c, k);
    MergeAt(a, Merge(b, c), k);
    hide Merge;
  }

  /** dict_merge is associative exactly where no leaf comes between two dictionaries that differ. */
  lemma {:induction false} AssociativeIff(a: Tree, b: Tree, c: Tree)
    ensures Merge(Merge(a, b), c) == Merge(a, Merge(b, c)) <==> NoLeafBetween(a, b, c)
    decreases c
  {
    if a.Node? && b.Node? && c.Node? {
      var l, r := Merge(Merge(a, b), c), Merge(a, Merge(b, c));
      forall k ensures k in l.entries <==> k in r.entries {
        AssociativeAt(a, b, c, k);
      }
      forall k | k in a.entries && k in b.entries && k in c.entries
        ensures k in l.entries && k in r.entries
        ensures l.entries[k] == r.entries[k] <==> NoLeafBetween(a.entries[k], b.entries[k], c.entries[k])
      {
        AssociativeAt(a, b, c, k);
        MergeAt(Merge(a, b), c, k);
        AssociativeIff(a.entries[k], b.entries[k], c.entries[k]);
      }
      hide Merge;
      if NoLeafBetween(a, b, c) {
        forall k | k in l.entries ensures l.entries[k] == r.entries[k] {
          AssociativeAt(a, b, c, k);
        }
        SameEntries(l, r);
      }
    } else {
      NothingToAdd(a, c);
    }
  }

  /** No path is a leaf in one tree and a dictionary in the other. */
  predicate Compatible(a: Tree, b: Tree)
    decreases a
  {
    if a.Leaf? || b.Leaf? then a.Leaf? && b.Leaf?
    else forall k :: k in a.entries && k in b.entries ==> Compatible(a.entries[k], b.entries[k])
  }

  lemma {:induction false} CompatibleHasNoLeafBetween(a: Tree, b: Tree, c: Tree)
    requires Compatible(a, b)
    ensures NoLeafBetween(a, b, c)
    decreases c
  {
    if a.Node? && b.Node? && c.Node? {
      forall k | k in a.entries && k in b.entries && k in c.entries
        ensures NoLeafBetween(a.entries[k], b.entries[k], c.entries[k])
      {
        CompatibleHasNoLeafBetween(a.entries[k], b.entries[k], c.entries[k]);
      }
    }
  }

  lemma Associative(a: Tree, b: Tree, c: Tree)
    requires Compatible(a, b)
    ensures Merge(Merge(a, b), c) == Merge(a, Merge(b, c))
  {
    CompatibleHasNoLeafBetween(a, b, c);
    AssociativeIff(a, b, c);
  }

  /** A leaf that is set between two dictionaries hides the first one from the third only on one side. */
  lemma NotAssociative(x: Tree, b: Scalar, c: Tree)
    requires c.Node? && "x" !in c.entries
    ensures var a := Node(map["x" := x]); Merge(Merge(a, Leaf(b)), c) != Merge(a, Merge(Leaf(b), c))
  {
    var a := Node(map["x" := x]);
    assert "x" in Merge(a, c).entries;
  }

  // ---------------------------------------------------------------- what is found at a path

  /** The leaf at a path. */
  function LeafAt(t: Tree, path: seq<string>): Option<Scalar> {
    match t
    case Leaf(value) => if path == [] then Some(value) else None
    case Node(entries) => if path != [] && path[0] in entries then LeafAt(entries[path[0]], path[1..]) else None
  }

  /** Whether following the path ends in the tree, or in a leaf on the way, rather than at a missing key. */
  predicate Settles(t: Tree, path: seq<string>) {
    match t
    case Leaf(_) => true
    case Node(entries) => path == [] || (path[0] in entries && Settles(entries[path[0]], path[1..]))
  }

  /** The second argument decides for every path that it settles, and the first for the others. */
  lemma {:induction false} LeafOfMerge(base: Tree, over: Tree, path: seq<string>)
    ensures LeafAt(Merge(base, over), path) == if Settles(over, path) then LeafAt(over, path) else LeafAt(base, path)
    decreases over
  {
    Unsettled(over, path);
    if base.Node? && over.Node? && path != [] {
      MergeAt(base, over, path[0]);
      if path[0] in base.entries && path[0] in over.entries {
        LeafOfMerge(base.entries[path[0]], over.entries[path[0]], path[1..]);
      }
      hide Merge;
    }
  }

  lemma {:induction false} Unsettled(t: Tree, path: seq<string>)
    ensures !Settles(t, path) ==> LeafAt(t, path) == None && path != []
    decreases t
  {
    if t.Node? && path != [] && path[0] in t.entries {
      Unsettled(t.entries[path[0]], path[1..]);
    }
  }

  /** In compatible trees the second argument's leaves win, and the first fills in the rest. */
  lemma {:induction false} LeafOfCompatible(base: Tree, over: Tree, path: seq<string>)
    requires Compatible(base, over)
    ensures LeafAt(Merge(base, over), path) ==
      if LeafAt(over, path).Some? then LeafAt(over, path) else LeafAt(base, path)
  {
    LeafOfMerge(base, over, path);
    Unsettled(over, path);
    SettledAlike(base, over, path);
  }

  lemma {:induction false} SettledAlike(base: Tree, over: Tree, path: seq<string>)
    requires Compatible(base, over)
    ensures Settles(over, path) && LeafAt(over, path) == None ==> LeafAt(base, path) == None
    decreases over
  {
    if over.Node? && path != [] && path[0] in over.entries && path[0] in base.entries {
      SettledAlike(base.entries[path[0]], over.entries[path[0]], path[1..]);
    }
  }

  lemma {:induction false} CompatibleIsSymmetric(a: Tree, b: Tree)
    requires Compatible(a, b)
    ensures Compatible(b, a)
    decreases a
  {
    if a.Node? {
      forall k | k in a.entries && k in b.entries ensures Compatible(b.entries[k], a.entries[k]) {
        CompatibleIsSymmetric(a.entries[k], b.entries[k]);
      }
    }
  }

  /** A merge is compatible with what both of its arguments are compatible with. */
  lemma {:induction false} CompatibleWithMerge(t: Tree, base: Tree, over: Tree)
    requires Compatible(t, base) && Compatible(t, over)
    ensures Compatible(t, Merge(base, over))
    decreases t
  {
    if t.Node? {
      forall k | k in t.entries && k in Merge(base, over).entries
        ensures Compatible(t.entries[k], Merge(base, over).entries[k]) {
        MergeAt(base, over, k);
        if k in base.entries && k in over.entries {
          CompatibleWithMerge(t.entries[k], base.entries[k], over.entries[k]);
        }
      }
    }
  }
}
