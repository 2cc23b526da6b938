/** The index over all categories: the hash of a key selects the tree (get_category_id_by_hashkey_unsafe). */
module TreeInstances {
  import opened NodeKeys
  import opened Shapes
  import opened ShapeInsertion
  import opened ShapeRemoval
  import opened HashVisits
  import opened SmmrTree

  const CATEGORY_CNT := 4

  /** The category of a hash; a hash of 0 has none. */
  function CategoryId(keyhash: nat): (r: int) {
    if keyhash == 0 then -1 else keyhash % CATEGORY_CNT
  }

  /** A hash other than 0 leaves its category when it is divided by 4, and so do those 4 apart. */
  lemma CategoryIsRest(keyhash: nat, q: nat, c: nat)
    requires keyhash == 4 * q + c && c < 4
    ensures CategoryId(keyhash) == if keyhash == 0 then -1 else c
  {
  }

  /** What the insertion of a key makes of its tree. */
  ghost predicate Grew(t0: Shape, t: Shape, k: NodeKey) {
    Flat(t) == (if k in Flat(t0) then Flat(t0) else Ins(Flat(t0), k)) && Alike(t, AddShape(t0, k))
  }

  class TreeInstance {
    const trees: seq<Tree>
    ghost var keys: set<NodeKey>

    /** The index holds exactly the keys of its trees, each in the tree of its own category. */
    ghost predicate Valid()
      reads this, trees
    {
      |trees| == CATEGORY_CNT
      && (forall i, j :: 0 <= i < j < |trees| ==> trees[i] != trees[j])
      && (forall i :: 0 <= i < |trees| ==> trees[i].Valid())
      && (forall i, k :: 0 <= i < |trees| && k in trees[i].keys ==> k in keys && CategoryId(k.keyhash) == i)
      && forall k :: k in keys ==> k.keyhash != 0 && k in trees[CategoryId(k.keyhash)].keys
    }

    /** The tree in which the keys of a hash are. */
    ghost function TreeOf(keyhash: nat): (t: Shape)
      reads this, trees
    {
      if keyhash == 0 || |trees| != CATEGORY_CNT then Nil else trees[CategoryId(keyhash)].shape
    }

    lemma TreeKeys(keyhash: nat)
      requires Valid()
      ensures forall k :: k in Flat(TreeOf(keyhash)) ==> k in keys
      ensures forall k :: k in keys && k.keyhash == keyhash ==> k in Flat(TreeOf(keyhash))
      ensures Sorted(Flat(TreeOf(keyhash)))
    {
    }

    constructor ()
      ensures Valid() && keys == {} && fresh(trees)
      ensures forall h :: TreeOf(h) == Nil
    {
      var ts: seq<Tree> := [];
      while |ts| < CATEGORY_CNT
        invariant |ts| <= CATEGORY_CNT && fresh(ts)
        invariant forall i, j :: 0 <= i < j < |ts| ==> ts[i] != ts[j]
        invariant forall i :: 0 <= i < |ts| ==> ts[i].Valid() && ts[i].keys == {} && ts[i].shape == Nil
      {
        var t := new Tree();
        ts := ts + [t];
      }
      trees := ts;
      keys := {};
    }

    /** add_tree_safe. */
    method Add(itm: NodeKey) returns (ok: bool)
      requires Valid()
      modifies this, trees
      ensures Valid()
      ensures ok <==> itm.keyhash != 0
      ensures keys == if ok then old(keys) + {itm} else old(keys)
      ensures forall i :: 0 <= i < |trees| && i != CategoryId(itm.keyhash) ==> trees[i].shape == old(trees[i].shape)
      ensures ok ==> Grew(old(TreeOf(itm.keyhash)), TreeOf(itm.keyhash), itm)
    {
      var category_id := CategoryId(itm.keyhash);
      ok := category_id >= 0;
      if ok {
        AddTo(category_id, itm);
      }
    }

    method AddTo(category_id: nat, itm: NodeKey)
      requires Valid() && CategoryId(itm.keyhash) == category_id
      modifies this, trees
      ensures Valid() && keys == old(keys) + {itm}
      ensures forall i :: 0 <= i < |trees| && i != category_id ==> trees[i].shape == old(trees[i].shape)
      ensures Grew(old(trees[category_id].shape), trees[category_id].shape, itm)
    {
      hide Tree.Valid;
      trees[category_id].Add(itm);
      keys := keys + {itm};
    }

    /** remove_tree_safe. */
    method Remove(itm: NodeKey) returns (ok: bool)
      requires Valid()
      modifies this, trees
      ensures Valid()
      ensures ok <==> itm.keyhash != 0
      ensures keys == old(keys) - {itm}
      ensures forall i :: 0 <= i < |trees| && i != CategoryId(itm.keyhash) ==> trees[i].shape == old(trees[i].shape)
      ensures ok ==> TreeOf(itm.keyhash) == RemovedShape(old(TreeOf(itm.keyhash)), itm)
    {
      var category_id := CategoryId(itm.keyhash);
      ok := category_id >= 0;
      if ok {
        RemoveFrom(category_id, itm);
      }
    }

    method RemoveFrom(category_id: nat, itm: NodeKey)
      requires Valid() && CategoryId(itm.keyhash) == category_id
      modifies this, trees
      ensures Valid() && keys == old(keys) - {itm}
      ensures forall i :: 0 <= i < |trees| && i != category_id ==> trees[i].shape == old(trees[i].shape)
      ensures trees[category_id].shape == RemovedShape(old(trees[category_id].shape), itm)
    {
      hide Tree.Valid;
      trees[category_id].Remove(itm);
      keys := keys - {itm};
    }

    /** find_tree_only_keyhash_safe: the keys handed to the callback, in order. */
    method SearchHash(keyhash: nat, stop: NodeKey -> bool) returns (calls: seq<NodeKey>)
      requires Valid()
      ensures calls == Visits(TreeOf(keyhash), keyhash, stop)
      ensures forall i, j :: 0 <= i < j < |calls| ==> calls[i] != calls[j]
      ensures forall k :: k in calls ==> k in keys && k.keyhash == keyhash
      ensures (forall k :: k in calls ==> !stop(k)) ==> forall k :: k in keys && k.keyhash == keyhash ==> k in calls
      ensures |keys| <= TREE_NODECOUNT ==> forall k :: k in keys && k.keyhash == keyhash && stop(k) ==>
        calls != [] && stop(calls[|calls| - 1]) && !Less(k, calls[|calls| - 1])
    {
      NoHash0();
      assert Visits(Nil, keyhash, stop) == [];
      hide Tree.Valid;
      hide Visits;
      hide Valid;
      hide TreeOf;
      var category_id := CategoryId(keyhash);
      if category_id < 0 {
        calls := [];
      } else {
        calls := SearchIn(category_id, keyhash, stop);
        if |keys| <= TREE_NODECOUNT {
          FewKeys(category_id, keyhash, stop);
        }
      }
    }

    lemma NoHash0()
      requires Valid()
      ensures TreeOf(0) == Nil && forall k :: k in keys ==> k.keyhash != 0
    {
    }

    /** The search in the tree of the category. */
    method SearchIn(c: nat, keyhash: nat, stop: NodeKey -> bool) returns (calls: seq<NodeKey>)
      requires Valid() && CategoryId(keyhash) == c
      ensures calls == Visits(TreeOf(keyhash), keyhash, stop)
      ensures forall i, j :: 0 <= i < j < |calls| ==> calls[i] != calls[j]
      ensures forall k :: k in calls ==> k in keys && k.keyhash == keyhash
      ensures (forall k :: k in calls ==> !stop(k)) ==> forall k :: k in keys && k.keyhash == keyhash ==> k in calls
    {
      hide Tree.Valid;
      hide Visits;
      calls := trees[c].SearchHash(keyhash, stop);
    }

    /** An index of at most 4 keys has only one-node trees. */
    lemma FewKeys(c: nat, keyhash: nat, stop: NodeKey -> bool)
      requires Valid() && |keys| <= TREE_NODECOUNT && CategoryId(keyhash) == c
      ensures var calls := Visits(TreeOf(keyhash), keyhash, stop);
        forall k :: k in keys && k.keyhash == keyhash && stop(k) ==>
          calls != [] && stop(calls[|calls| - 1]) && !Less(k, calls[|calls| - 1])
    {
      KeySetSize(Flat(trees[c].shape));
      SubsetSize(trees[c].keys, keys);
      SmallTreeVisits(trees[c].shape, trees[c].height, keyhash, stop);
    }

    /** count_tree_safe. */
    method Count() returns (count: nat)
      requires Valid()
      ensures count == |keys|
    {
      count := 0;
      ghost var seen: set<NodeKey> := {};
      for n := 0 to CATEGORY_CNT
        invariant count == |seen|
        invariant forall k :: k in seen <==> k in keys && CategoryId(k.keyhash) < n
      {
        var c := trees[n].CountNode(trees[n].rooti, trees[n].shape);
        KeySetSize(Flat(trees[n].shape));
        assert seen !! trees[n].keys;
        seen := seen + trees[n].keys;
        count := count + c;
      }
      assert seen == keys;
    }
  }

  lemma {:induction false} SubsetSize(a: set<NodeKey>, b: set<NodeKey>)
    requires a <= b
    ensures |a| <= |b|
  {
    if a != {} {
      var k :| k in a;
      SubsetSize(a - {k}, b - {k});
    }
  }
}
