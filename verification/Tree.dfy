/** The index of one category: insertion, removal and both searches (smmr_tree.c). */
module SmmrTree {
  import opened NodeKeys
  import opened Shapes
  import opened ShapeInsertion
  import opened ShapeRemoval
  import opened ShapeRuns
  import opened TreeNodes
  import opened TreeInsertion
  import opened TreeRemoval
  import opened HashVisits

  class Tree {
    var rooti: Ref
    var newnodei: Ref
    var current_item: NodeKey
    var done: bool
    var deleted: bool
    var undersize: bool
    var nodes: Blocks
    ghost var shape: Shape
    ghost var height: nat
    ghost var keys: set<NodeKey>

    /** The blocks encode a balanced search tree, and every allocated block is in it exactly once. */
    ghost predicate Valid()
      reads this
    {
      Encoded(nodes, shape) && Root(shape) == rooti
      && Good(shape, height, 1) && Sorted(Flat(shape))
      && Bag(shape) == multiset(nodes.Keys)
      && keys == KeySet(Flat(shape))
    }

    constructor ()
      ensures Valid() && keys == {} && nodes == map[] && shape == Nil
    {
      rooti, newnodei := EMPTY, EMPTY;
      current_item := NodeKey(0, 0, 0);
      done, deleted, undersize := false, false, false;
      nodes := map[];
      shape, height, keys := Nil, 0, {};
    }

    /** What a valid tree is, for those who only use it. */
    lemma Facts()
      requires Valid()
      ensures Encoded(nodes, shape) && Bag(shape) == multiset(nodes.Keys) && Good(shape, height, 1)
      ensures height > 0 ==> 2 * Pow3(height - 1) - 1 <= |keys|
      ensures keys == {} ==> nodes == map[]
    {
      HeightBound(shape, height, 1);
      KeySetSize(Flat(shape));
      if keys == {} {
        EmptyHasNoBlocks(nodes, shape, height);
      }
    }

    /** The number of keys below `k` in front of the first one that is not. */
    method Position(nodei: Ref, k: NodeKey) returns (pos: nat)
      requires nodei in nodes && nodes[nodei].Sized()
      ensures pos <= nodes[nodei].count
      ensures pos > 0 ==> Less(nodes[nodei].keys[pos - 1], k)
      ensures pos < nodes[nodei].count ==> !Less(nodes[nodei].keys[pos], k)
      ensures pos == PosOf(nodes[nodei].Ks(), k)
    {
      var node := nodes[nodei];
      pos := 0;
      while pos < node.count && Compare(node.keys[pos], k) < 0
        invariant pos <= node.count
        invariant pos > 0 ==> Less(node.keys[pos - 1], k)
        invariant PosOf(node.Ks(), k) == pos + PosOf(node.Ks()[pos..], k)
      {
        pos := pos + 1;
      }
    }

    /** SHMALLOC of a node block: some unused address, with whatever the block last held. */
    method AllocNode() returns (r: Ref)
      modifies `nodes
      ensures r !in old(nodes) && r != EMPTY
      ensures r in nodes && nodes[r].Sized() && nodes == old(nodes)[r := nodes[r]]
    {
      FreshRef(nodes);
      r :| r !in nodes && r != EMPTY;
      var k := NodeKey(0, 0, 0);
      assert Node(0, [k, k, k, k], [EMPTY, EMPTY, EMPTY, EMPTY, EMPTY]).Sized();
      var left: Node :| left.Sized();
      nodes := nodes[r := left];
    }

    method AddItemToFreeNode(nodei: Ref, pos: nat)
      requires nodei in nodes && nodes[nodei].Sized()
      requires nodes[nodei].count < TREE_NODECOUNT && pos <= nodes[nodei].count
      modifies `nodes
      ensures nodei in nodes && nodes == old(nodes)[nodei := nodes[nodei]] && nodes[nodei].Sized()
      ensures nodes[nodei].Ks() == old(nodes[nodei].Ks()[..pos] + [current_item] + nodes[nodei].Ks()[pos..])
      ensures nodes[nodei].Cs() == old(nodes[nodei].Cs()[..pos + 1] + [newnodei] + nodes[nodei].Cs()[pos + 1..])
    {
      var was := nodes[nodei];
      MakeRoom(nodei, pos);
      var node := nodes[nodei];
      node := node.(count := node.count + 1, keys := node.keys[pos := current_item],
                    childsi := node.childsi[pos + 1 := newnodei]);
      nodes := nodes[nodei := node];
      ShiftedRight(was.keys, node.keys, was.count, pos, current_item);
      ShiftedRight(was.childsi, node.childsi, was.count + 1, pos + 1, newnodei);
    }

    /** The shift loop of _add_item_to_free_node: slot `pos` and the link slot behind it become free. */
    method MakeRoom(nodei: Ref, pos: nat)
      requires nodei in nodes && nodes[nodei].Sized()
      requires nodes[nodei].count < TREE_NODECOUNT && pos <= nodes[nodei].count
      modifies `nodes
      ensures Rewritten(old(nodes), nodes, nodei) && nodes[nodei].count == old(nodes[nodei].count)
      ensures forall j :: 0 <= j < pos ==> nodes[nodei].keys[j] == old(nodes[nodei]).keys[j]
      ensures forall j :: pos < j <= nodes[nodei].count ==> nodes[nodei].keys[j] == old(nodes[nodei]).keys[j - 1]
      ensures forall j :: 0 <= j <= pos ==> nodes[nodei].childsi[j] == old(nodes[nodei]).childsi[j]
      ensures forall j :: pos + 1 < j <= nodes[nodei].count + 1 ==>
        nodes[nodei].childsi[j] == old(nodes[nodei]).childsi[j - 1]
    {
      var was := nodes[nodei];
      var counter := was.count;
      while counter > pos
        invariant pos <= counter <= was.count
        invariant Rewritten(old(nodes), nodes, nodei) && nodes[nodei].count == was.count
        invariant forall j :: 0 <= j < counter ==> nodes[nodei].keys[j] == was.keys[j]
        invariant forall j :: counter < j <= was.count ==> nodes[nodei].keys[j] == was.keys[j - 1]
        invariant forall j :: 0 <= j <= counter ==> nodes[nodei].childsi[j] == was.childsi[j]
        invariant forall j :: counter + 1 < j <= was.count + 1 ==> nodes[nodei].childsi[j] == was.childsi[j - 1]
      {
        var node := nodes[nodei];
        nodes := nodes[nodei := node.(keys := node.keys[counter := node.keys[counter - 1]],
                                      childsi := node.childsi[counter + 1 := node.childsi[counter]])];
        counter := counter - 1;
      }
    }

    /** The first half of _split_node: everything behind key `newpos` moves to a new block,
        whose first link is still unset. */
    method MoveUpperPart(nodei: Ref, newpos: nat) returns (r: Ref)
      requires nodei in nodes && nodes[nodei].Sized() && newpos < nodes[nodei].count == TREE_NODECOUNT
      modifies `nodes
      ensures r !in old(nodes) && r != EMPTY && nodei in nodes && r in nodes
      ensures nodes == old(nodes)[r := nodes[r]][nodei := nodes[nodei]]
      ensures nodes[nodei].Sized() && nodes[r].Sized()
      ensures nodes[nodei].Ks() == old(nodes[nodei].Ks()[..newpos]) && nodes[r].Ks() == old(nodes[nodei].Ks()[newpos..])
      ensures nodes[nodei].Cs() == old(nodes[nodei].Cs()[..newpos + 1])
      ensures nodes[r].Cs()[1..] == old(nodes[nodei].Cs()[newpos + 1..])
    {
      var was := nodes[nodei];
      r := AllocNode();
      var n := newpos + 1;
      while n <= TREE_NODECOUNT
        invariant newpos + 1 <= n <= TREE_NODECOUNT + 1
        invariant r in nodes && nodes[r].Sized() && nodes == old(nodes)[r := nodes[r]]
        invariant forall j :: 0 <= j < n - newpos - 1 ==> nodes[r].keys[j] == was.keys[j + newpos]
        invariant forall j :: 1 <= j < n - newpos ==> nodes[r].childsi[j] == was.childsi[j + newpos]
      {
        var tmp := nodes[r];
        nodes := nodes[r := tmp.(keys := tmp.keys[n - newpos - 1 := was.keys[n - 1]],
                                 childsi := tmp.childsi[n - newpos := was.childsi[n]])];
        n := n + 1;
      }
      nodes := nodes[r := nodes[r].(count := TREE_NODECOUNT - newpos)];
      nodes := nodes[nodei := was.(count := newpos)];
    }

    /** A full node keeps its two smallest keys, the third is passed up in
        current_item, and the rest moves to the new block newnodei. */
    method SplitNode(nodei: Ref, pos: nat)
      requires nodei in nodes && nodes[nodei].Sized() && nodes[nodei].count == TREE_NODECOUNT && pos <= TREE_NODECOUNT
      modifies `nodes, `current_item, `newnodei
      ensures newnodei !in old(nodes) && newnodei != EMPTY && nodei in nodes && newnodei in nodes
      ensures nodes == old(nodes)[nodei := nodes[nodei]][newnodei := nodes[newnodei]]
      ensures nodes[nodei].Sized() && nodes[newnodei].Sized()
      ensures
        var ks := old(nodes[nodei].Ks()[..pos] + [current_item] + nodes[nodei].Ks()[pos..]);
        var cs := old(nodes[nodei].Cs()[..pos + 1] + [newnodei] + nodes[nodei].Cs()[pos + 1..]);
        nodes[nodei].Ks() == ks[..TREE_NODEMIN] && current_item == ks[TREE_NODEMIN]
        && nodes[newnodei].Ks() == ks[TREE_NODEMIN + 1..]
        && nodes[nodei].Cs() == cs[..TREE_NODEMIN + 1] && nodes[newnodei].Cs() == cs[TREE_NODEMIN + 1..]
    {
      var newpos := if pos <= TREE_NODEMIN then TREE_NODEMIN else TREE_NODEMIN + 1;
      hide Node.Ks;
      hide Node.Cs;
      hide Node.Sized;
      InUse(nodes[nodei]);
      ghost var wk, wc, cur, new0 := nodes[nodei].Ks(), nodes[nodei].Cs(), current_item, newnodei;
      var r := MoveUpperPart(nodei, newpos);
      ghost var ks, cs := wk[..pos] + [cur] + wk[pos..], wc[..pos + 1] + [new0] + wc[pos + 1..];
      AddItemToHalf(nodei, r, pos, newpos, wk, wc, ks, cs);
      InUse(nodes[nodei]);
      InUse(nodes[r]);
      HalvesCut(ks, cs, nodes[nodei].Cs(), nodes[r].Cs());
      FinishSplit(nodei, r);
      newnodei := r;
    }

    /** _add_item_to_free_node once more, when the outcome has names. */
    method AddItemHere(at: Ref, pos: nat, ghost wk: seq<NodeKey>, ghost wc: seq<Ref>, ghost ks: seq<NodeKey>,
                       ghost cs: seq<Ref>)
      requires at in nodes && nodes[at].Sized() && nodes[at].count < TREE_NODECOUNT && pos <= nodes[at].count
      requires nodes[at].Ks() == wk && nodes[at].Cs() == wc && pos <= |wk| && pos + 1 <= |wc|
      requires ks == wk[..pos] + [current_item] + wk[pos..] && cs == wc[..pos + 1] + [newnodei] + wc[pos + 1..]
      modifies `nodes
      ensures at in nodes && nodes == old(nodes)[at := nodes[at]] && nodes[at].Sized()
      ensures nodes[at].Ks() == ks && nodes[at].Cs() == cs
    {
      AddItemToFreeNode(at, pos);
    }

    /** The middle of _split_node: the item goes to the half its position falls in. */
    method AddItemToHalf(nodei: Ref, r: Ref, pos: nat, newpos: nat, ghost wk: seq<NodeKey>, ghost wc: seq<Ref>,
                         ghost ks: seq<NodeKey>, ghost cs: seq<Ref>)
      requires nodei != r && nodei in nodes && r in nodes && nodes[nodei].Sized() && nodes[r].Sized()
      requires |wk| == TREE_NODECOUNT && |wc| == TREE_NODECOUNT + 1 && pos <= TREE_NODECOUNT
      requires newpos == if pos <= TREE_NODEMIN then TREE_NODEMIN else TREE_NODEMIN + 1
      requires nodes[nodei].Ks() == wk[..newpos] && nodes[r].Ks() == wk[newpos..]
      requires nodes[nodei].Cs() == wc[..newpos + 1] && nodes[r].Cs()[1..] == wc[newpos + 1..]
      requires ks == wk[..pos] + [current_item] + wk[pos..] && cs == wc[..pos + 1] + [newnodei] + wc[pos + 1..]
      modifies `nodes
      ensures nodei in nodes && r in nodes && nodes == old(nodes)[nodei := nodes[nodei]][r := nodes[r]]
      ensures nodes[nodei].Sized() && nodes[r].Sized()
      ensures nodes[nodei].Ks() == ks[..TREE_NODEMIN + 1] && nodes[r].Ks() == ks[TREE_NODEMIN + 1..]
      ensures nodes[nodei].Cs() == cs[..TREE_NODEMIN + 2] && nodes[r].Cs()[1..] == cs[TREE_NODEMIN + 2..]
    {
      hide Node.Ks;
      hide Node.Cs;
      hide Node.Sized;
      InUse(nodes[nodei]);
      InUse(nodes[r]);
      ghost var lk, lc, uk, uc := nodes[nodei].Ks(), nodes[nodei].Cs(), nodes[r].Ks(), nodes[r].Cs();
      if pos <= TREE_NODEMIN {
        CutBehind(wk, newpos, pos, current_item, lk, uk, ks);
        CutBehind(wc, newpos + 1, pos + 1, newnodei, lc, uc[1..], cs);
        AddItemHere(nodei, pos, lk, lc, ks[..TREE_NODEMIN + 1], cs[..TREE_NODEMIN + 2]);
      } else {
        CutInFront(wk, newpos, pos, current_item, lk, uk, ks);
        CutInFront(wc, newpos + 1, pos + 1, newnodei, lc, uc[1..], cs);
        TailInserted(uc, pos - newpos + 1, newnodei);
        AddItemHere(r, pos - newpos, uk, uc, ks[TREE_NODEMIN + 1..],
          uc[..pos - newpos + 1] + [newnodei] + uc[pos - newpos + 1..]);
      }
    }

    /** The last key of the lower half goes up and its right link becomes the first of the upper half. */
    method FinishSplit(nodei: Ref, r: Ref)
      requires nodei != r && nodei in nodes && r in nodes && nodes[nodei].Sized() && nodes[r].Sized()
      requires nodes[nodei].count > 0
      modifies `nodes, `current_item
      ensures nodei in nodes && r in nodes && nodes == old(nodes)[nodei := nodes[nodei]][r := nodes[r]]
      ensures nodes[nodei].Sized() && nodes[r].Sized()
      ensures current_item == old(nodes[nodei].Ks()[nodes[nodei].count - 1])
      ensures nodes[nodei].Ks() == old(nodes[nodei].Ks()[..nodes[nodei].count - 1])
      ensures nodes[nodei].Cs() == old(nodes[nodei].Cs()[..nodes[nodei].count])
      ensures nodes[r].Ks() == old(nodes[r].Ks())
      ensures nodes[r].Cs() == old([nodes[nodei].Cs()[nodes[nodei].count]] + nodes[r].Cs()[1..])
    {
      var node := nodes[nodei];
      current_item := node.keys[node.count - 1];
      nodes := nodes[r := nodes[r].(childsi := nodes[r].childsi[0 := node.childsi[node.count]])];
      nodes := nodes[nodei := node.(count := node.count - 1)];
    }

    /** _insert_item_recurcive: afterwards either the subtree took the key (done), or it
        split, and current_item and newnodei hold what its parent has to take. */
    method InsertItemRecursive(nodei: Ref, ghost t: Shape, ghost h: nat, ghost lo: nat)
      returns (ghost t1: Shape, ghost t2: Shape)
      requires Encoded(nodes, t) && Root(t) == nodei && Good(t, h, lo) && 1 <= lo <= TREE_NODEMIN
      requires Sorted(Flat(t)) && Sole(Bag(t))
      modifies `nodes, `current_item, `newnodei, `done
      ensures done ==> Inserted(old(nodes), nodes, t, h, lo, old(current_item), t1)
      ensures !done ==> Burst(old(nodes), nodes, t, h, old(current_item), t1, current_item, t2) && Root(t2) == newnodei
      ensures if done then Becomes(t, old(current_item), t1) else SplitsInto(t, old(current_item), t1, current_item, t2)
      decreases h
    {
      TopBlock(nodes, t, h, lo);
      hide Encoded;
      hide Good;
      hide Flat;
      hide Bag;
      hide Inserted;
      hide Burst;
      hide Less;
      hide Becomes;
      hide SplitsInto;
      hide PosOf;
      if nodei == EMPTY {
        done := false;
        newnodei := EMPTY;
        t1, t2 := Nil, Nil;
        NilBursts(nodes, current_item);
        NilSplits(current_item);
        return;
      }
      var pos := Position(nodei, current_item);
      ghost var n0, k := nodes, current_item;
      if pos < nodes[nodei].count && Compare(nodes[nodei].keys[pos], current_item) == 0 {
        done := true;
        t1, t2 := t, Nil;
        FoundHere(nodes, t, h, lo, pos);
        FoundBecomes(t, current_item);
        return;
      }
      Enters(n0, t, h, lo, pos, k);
      ghost var c, d := InsertItemRecursive(nodes[nodei].childsi[pos], t.ts[pos], h - 1, TREE_NODEMIN);
      if done {
        t1, t2 := Replaced(t, pos, c), Nil;
        Absorbed(n0, nodes, t, h, lo, pos, k, c);
        ChildBecomes(t, pos, k, c);
      } else {
        t1, t2 := TakeFromChild(nodei, pos, n0, t, h, lo, k, c, d);
      }
    }

    /** The end of _insert_item_recurcive: the child at `pos` split, and this node takes
        current_item and newnodei if it has room, or splits in turn. */
    method TakeFromChild(nodei: Ref, pos: nat, ghost n0: Blocks, ghost t: Shape, ghost h: nat, ghost lo: nat,
                         ghost k: NodeKey, ghost c: Shape, ghost d: Shape)
      returns (ghost t1: Shape, ghost t2: Shape)
      requires Entering(n0, t, h, lo, pos, k) && Root(t) == nodei
      requires Burst(n0, nodes, t.ts[pos], h - 1, k, c, current_item, d) && newnodei == Root(d)
      requires GoesInto(t, pos, k) && SplitsInto(t.ts[pos], k, c, current_item, d)
      modifies `nodes, `current_item, `newnodei, `done
      ensures done ==> Inserted(n0, nodes, t, h, lo, k, t1)
      ensures !done ==> Burst(n0, nodes, t, h, k, t1, current_item, t2) && Root(t2) == newnodei
      ensures if done then Becomes(t, k, t1) else SplitsInto(t, k, t1, current_item, t2)
    {
      hide GoesInto;
      hide Becomes;
      hide SplitsInto;
      hide Entering;
      hide Burst;
      hide Inserted;
      hide Roots;
      ghost var up, n1 := current_item, nodes;
      HolderKept(n0, n1, t, h, lo, pos, k, c, up, d);
      if nodes[nodei].count < TREE_NODECOUNT {
        AddItemToFreeNode(nodei, pos);
        done := true;
        t1 := GrewInPlace(n0, n1, nodes, t, h, lo, pos, k, c, up, d);
        ChildTaken(t, pos, k, c, up, d);
        t2 := Nil;
      } else {
        SplitNode(nodei, pos);
        done := false;
        t1, t2 := SplitAgain(n0, n1, nodes, t, h, lo, pos, k, c, up, d, newnodei);
        ChildSplits(t, pos, k, c, up, d, newnodei);
      }
    }

    /** _calloc_new_node: a new root above the two parts of a split root. */
    method CallocNewNode() returns (r: Ref)
      modifies `nodes
      ensures r !in old(nodes) && r != EMPTY && r in nodes && nodes[r].Sized()
      ensures nodes == old(nodes)[r := nodes[r]]
      ensures nodes[r].Ks() == [current_item] && nodes[r].Cs() == [rooti, newnodei]
    {
      r := AllocNode();
      var node := nodes[r];
      nodes := nodes[r := node.(count := 1, keys := node.keys[0 := current_item],
                                childsi := node.childsi[0 := rooti][1 := newnodei])];
    }

    /** The root split: put a new root above its two parts. */
    method GrowRoot(ghost n0: Blocks, ghost k: NodeKey, ghost t1: Shape, ghost t2: Shape)
      requires Burst(n0, nodes, shape, height, k, t1, current_item, t2) && Bag(shape) == multiset(n0.Keys)
      requires Root(t1) == rooti && Root(t2) == newnodei
      modifies `nodes, `rooti, `shape, `height
      ensures Encoded(nodes, shape) && Root(shape) == rooti && Good(shape, height, 1)
      ensures Flat(shape) == Ins(old(Flat(shape)), k) && Bag(shape) == multiset(nodes.Keys)
      ensures shape == TwoUnder(rooti, t1, current_item, t2)
    {
      hide Encoded;
      hide Good;
      hide Flat;
      hide Bag;
      hide Roots;
      hide Burst;
      hide Ins;
      ghost var n1 := nodes;
      rooti := CallocNewNode();
      NewRoot(n0, n1, nodes, shape, height, k, t1, current_item, t2, rooti);
      shape, height := TwoUnder(rooti, t1, current_item, t2), height + 1;
    }

    /** add_tree_safe, within one category. */
    method Add(itm: NodeKey)
      requires Valid()
      modifies this
      ensures Valid() && Flat(shape) == if itm in old(Flat(shape)) then old(Flat(shape)) else Ins(old(Flat(shape)), itm)
      ensures keys == old(keys) + {itm}
      ensures itm in old(keys) ==> nodes == old(nodes) && rooti == old(rooti) && shape == old(shape)
      ensures Alike(shape, AddShape(old(shape), itm))
    {
      hide Encoded;
      hide Flat;
      hide Bag;
      hide Good;
      hide Sorted;
      hide Ins;
      hide Becomes;
      hide SplitsInto;
      hide Alike;
      hide AddShape;
      current_item := itm;
      OwnedIsSole(nodes, shape);
      ghost var n0, t0 := nodes, shape;
      ghost var t1, t2 := InsertItemRecursive(rooti, shape, height, 1);
      if !done {
        GrowRoot(n0, itm, t1, t2);
        SplitAdded(t0, itm, t1, current_item, t2, rooti);
      } else {
        KeptAdded(t0, itm, t1);
        GrownOwned(n0, nodes, shape, t1);
        shape := t1;
      }
      AddedKeys(old(Flat(shape)), itm, Flat(shape));
      keys := keys + {itm};
    }

    // ---- removal ----

    /** _remove_item_trgt: key `pos` and the link behind it leave the node. */
    method RemoveItemTarget(nodei: Ref, pos: nat)
      requires nodei in nodes && nodes[nodei].Sized() && pos < nodes[nodei].count
      modifies `nodes, `undersize
      ensures Rewritten(old(nodes), nodes, nodei)
      ensures nodes[nodei].Ks() == old(nodes[nodei].Ks()[..pos] + nodes[nodei].Ks()[pos + 1..])
      ensures nodes[nodei].Cs() == old(nodes[nodei].Cs()[..pos + 1] + nodes[nodei].Cs()[pos + 2..])
      ensures undersize <==> old(nodes[nodei].count) - 1 < TREE_NODEMIN
    {
      ghost var was := nodes[nodei];
      CloseGap(nodei, pos);
      var node := nodes[nodei];
      ShiftedLeft(was.keys, node.keys, was.count, pos);
      ShiftedLeft(was.childsi, node.childsi, was.count + 1, pos + 1);
      nodes := nodes[nodei := node.(count := node.count - 1)];
      undersize := nodes[nodei].count < TREE_NODEMIN;
    }

    /** The shift loop of _remove_item_trgt. */
    method CloseGap(nodei: Ref, pos: nat)
      requires nodei in nodes && nodes[nodei].Sized() && pos < nodes[nodei].count
      modifies `nodes
      ensures Rewritten(old(nodes), nodes, nodei) && nodes[nodei].count == old(nodes[nodei].count)
      ensures forall j :: 0 <= j < pos ==> nodes[nodei].keys[j] == old(nodes[nodei]).keys[j]
      ensures forall j :: pos <= j < nodes[nodei].count - 1 ==> nodes[nodei].keys[j] == old(nodes[nodei]).keys[j + 1]
      ensures forall j :: 0 <= j <= pos ==> nodes[nodei].childsi[j] == old(nodes[nodei]).childsi[j]
      ensures forall j :: pos < j < nodes[nodei].count ==> nodes[nodei].childsi[j] == old(nodes[nodei]).childsi[j + 1]
    {
      var was := nodes[nodei];
      var p := pos + 1;
      while p < was.count
        invariant pos + 1 <= p <= was.count && Rewritten(old(nodes), nodes, nodei) && nodes[nodei].count == was.count
        invariant forall j :: 0 <= j < pos ==> nodes[nodei].keys[j] == was.keys[j]
        invariant forall j :: pos <= j < p - 1 ==> nodes[nodei].keys[j] == was.keys[j + 1]
        invariant forall j :: p - 1 <= j < was.count ==> nodes[nodei].keys[j] == was.keys[j]
        invariant forall j :: 0 <= j <= pos ==> nodes[nodei].childsi[j] == was.childsi[j]
        invariant forall j :: pos < j < p ==> nodes[nodei].childsi[j] == was.childsi[j + 1]
        invariant forall j :: p <= j <= was.count ==> nodes[nodei].childsi[j] == was.childsi[j]
      {
        var node := nodes[nodei];
        nodes := nodes[nodei := node.(keys := node.keys[p - 1 := node.keys[p]],
                                      childsi := node.childsi[p := node.childsi[p + 1]])];
        p := p + 1;
      }
    }

    /** Every key and link of the node moves up by one, and `k` and `c` come in front. */
    method PutInFront(nodei: Ref, k: NodeKey, c: Ref)
      requires nodei in nodes && nodes[nodei].Sized() && nodes[nodei].count < TREE_NODECOUNT
      modifies `nodes
      ensures Rewritten(old(nodes), nodes, nodei)
      ensures nodes[nodei].Ks() == [k] + old(nodes[nodei].Ks()) && nodes[nodei].Cs() == [c] + old(nodes[nodei].Cs())
    {
      var was := nodes[nodei];
      var n := was.count;
      while n > 0
        invariant 0 <= n <= was.count && Rewritten(old(nodes), nodes, nodei) && nodes[nodei].count == was.count
        invariant forall j :: 0 <= j < n ==> nodes[nodei].keys[j] == was.keys[j]
        invariant forall j :: n < j <= was.count ==> nodes[nodei].keys[j] == was.keys[j - 1]
        invariant forall j :: 0 <= j <= n ==> nodes[nodei].childsi[j] == was.childsi[j]
        invariant forall j :: n + 1 < j <= was.count + 1 ==> nodes[nodei].childsi[j] == was.childsi[j - 1]
      {
        var node := nodes[nodei];
        nodes := nodes[nodei := node.(keys := node.keys[n := node.keys[n - 1]],
                                      childsi := node.childsi[n + 1 := node.childsi[n]])];
        n := n - 1;
      }
      var node := nodes[nodei];
      node := node.(childsi := node.childsi[1 := node.childsi[0]], count := node.count + 1);
      node := node.(keys := node.keys[0 := k], childsi := node.childsi[0 := c]);
      nodes := nodes[nodei := node];
      ShiftedRight(was.keys, node.keys, was.count, 0, k);
      ShiftedRight(was.childsi, node.childsi, was.count + 1, 0, c);
    }

    /** The first key and the first link leave the node. */
    method DropFront(nodei: Ref)
      requires nodei in nodes && nodes[nodei].Sized() && nodes[nodei].count > 0
      modifies `nodes
      ensures Rewritten(old(nodes), nodes, nodei)
      ensures nodes[nodei].Ks() == old(nodes[nodei].Ks()[1..]) && nodes[nodei].Cs() == old(nodes[nodei].Cs()[1..])
    {
      var was := nodes[nodei];
      nodes := nodes[nodei := was.(childsi := was.childsi[0 := was.childsi[1]], count := was.count - 1)];
      var n := 1;
      while n <= was.count - 1
        invariant 1 <= n <= was.count && Rewritten(old(nodes), nodes, nodei) && nodes[nodei].count == was.count - 1
        invariant forall j :: 0 <= j < n - 1 ==> nodes[nodei].keys[j] == was.keys[j + 1]
        invariant forall j :: n - 1 <= j < was.count ==> nodes[nodei].keys[j] == was.keys[j]
        invariant forall j :: 0 <= j < n ==> nodes[nodei].childsi[j] == was.childsi[j + 1]
        invariant forall j :: n <= j <= was.count ==> nodes[nodei].childsi[j] == was.childsi[j]
      {
        var node := nodes[nodei];
        nodes := nodes[nodei := node.(keys := node.keys[n - 1 := node.keys[n]],
                                      childsi := node.childsi[n := node.childsi[n + 1]])];
        n := n + 1;
      }
    }

    /** `k` and `c` come behind the last key and link of the node. */
    method PutBehind(nodei: Ref, k: NodeKey, c: Ref)
      requires nodei in nodes && nodes[nodei].Sized() && nodes[nodei].count < TREE_NODECOUNT
      modifies `nodes
      ensures Rewritten(old(nodes), nodes, nodei)
      ensures nodes[nodei].Ks() == old(nodes[nodei].Ks()) + [k] && nodes[nodei].Cs() == old(nodes[nodei].Cs()) + [c]
    {
      var node := nodes[nodei];
      node := node.(count := node.count + 1);
      node := node.(keys := node.keys[node.count - 1 := k], childsi := node.childsi[node.count := c]);
      nodes := nodes[nodei := node];
    }

    /** A node, and two neighbouring children of it in blocks of their own. */
    ghost predicate Linked(nodei: Ref, pos: nat)
      reads this
    {
      nodei in nodes && nodes[nodei].Sized() && 0 < pos <= nodes[nodei].count
      && var lefti, righti := nodes[nodei].childsi[pos - 1], nodes[nodei].childsi[pos];
      lefti in nodes && righti in nodes && nodes[lefti].Sized() && nodes[righti].Sized()
      && nodei != lefti && nodei != righti && lefti != righti
    }

    /** _remove_item_moveright: the last key of child `pos - 1` goes up, the one above it down into child `pos`. */
    method MoveRight(nodei: Ref, pos: nat)
      requires Linked(nodei, pos)
      requires nodes[nodes[nodei].childsi[pos - 1]].count > 0 && nodes[nodes[nodei].childsi[pos]].count < TREE_NODECOUNT
      modifies `nodes
      ensures nodes.Keys == old(nodes.Keys)
      ensures
        var lefti, righti := old(nodes[nodei].childsi[pos - 1]), old(nodes[nodei].childsi[pos]);
        var left, right, node := old(nodes)[lefti], old(nodes)[righti], old(nodes)[nodei];
        Holds(nodes, lefti, left.Ks()[..left.count - 1], left.Cs()[..left.count])
        && Holds(nodes, righti, [node.keys[pos - 1]] + right.Ks(), [left.childsi[left.count]] + right.Cs())
        && Holds(nodes, nodei, node.Ks()[pos - 1 := left.keys[left.count - 1]], node.Cs())
        && forall r :: r in old(nodes) && r != nodei && r != lefti && r != righti ==> nodes[r] == old(nodes)[r]
    {
      var righti, lefti := nodes[nodei].childsi[pos], nodes[nodei].childsi[pos - 1];
      var left, node := nodes[lefti], nodes[nodei];
      PutInFront(righti, node.keys[pos - 1], left.childsi[left.count]);
      nodes := nodes[nodei := node.(keys := node.keys[pos - 1 := left.keys[left.count - 1]])];
      nodes := nodes[lefti := left.(count := left.count - 1)];
    }

    /** _remove_item_moveleft: the first key of child `pos` goes up, the one above it down into child `pos - 1`. */
    method MoveLeft(nodei: Ref, pos: nat)
      requires Linked(nodei, pos)
      requires nodes[nodes[nodei].childsi[pos - 1]].count < TREE_NODECOUNT && nodes[nodes[nodei].childsi[pos]].count > 0
      modifies `nodes
      ensures nodes.Keys == old(nodes.Keys)
      ensures
        var lefti, righti := old(nodes[nodei].childsi[pos - 1]), old(nodes[nodei].childsi[pos]);
        var left, right, node := old(nodes)[lefti], old(nodes)[righti], old(nodes)[nodei];
        Holds(nodes, lefti, left.Ks() + [node.keys[pos - 1]], left.Cs() + [right.childsi[0]])
        && Holds(nodes, righti, right.Ks()[1..], right.Cs()[1..])
        && Holds(nodes, nodei, node.Ks()[pos - 1 := right.keys[0]], node.Cs())
        && forall r :: r in old(nodes) && r != nodei && r != lefti && r != righti ==> nodes[r] == old(nodes)[r]
    {
      var righti, lefti := nodes[nodei].childsi[pos], nodes[nodei].childsi[pos - 1];
      var right, node := nodes[righti], nodes[nodei];
      PutBehind(lefti, node.keys[pos - 1], right.childsi[0]);
      nodes := nodes[nodei := node.(keys := node.keys[pos - 1 := right.keys[0]])];
      DropFront(righti);
    }

    /** The copying part of _remove_item_combine: the right node's keys and links go behind the left's. */
    method AppendNode(lefti: Ref, righti: Ref, k: NodeKey)
      requires lefti in nodes && righti in nodes && lefti != righti && nodes[lefti].Sized() && nodes[righti].Sized()
      requires nodes[lefti].count + nodes[righti].count < TREE_NODECOUNT
      modifies `nodes
      ensures Rewritten(old(nodes), nodes, lefti)
      ensures nodes[lefti].Ks() == old(nodes[lefti].Ks()) + [k] + old(nodes[righti].Ks())
      ensures nodes[lefti].Cs() == old(nodes[lefti].Cs()) + old(nodes[righti].Cs())
    {
      var right := nodes[righti];
      ghost var left := nodes[lefti];
      PutBehind(lefti, k, right.childsi[0]);
      var n := 1;
      while n <= right.count
        invariant 1 <= n <= right.count + 1 && Rewritten(old(nodes), nodes, lefti)
        invariant nodes[lefti].Ks() == left.Ks() + [k] + right.Ks()[..n - 1]
        invariant nodes[lefti].Cs() == left.Cs() + right.Cs()[..n]
      {
        PutBehind(lefti, right.keys[n - 1], right.childsi[n]);
        assert right.Ks()[..n] == right.Ks()[..n - 1] + [right.keys[n - 1]];
        assert right.Cs()[..n + 1] == right.Cs()[..n] + [right.childsi[n]];
        n := n + 1;
      }
      assert right.Ks()[..right.count] == right.Ks();
    }

    /** _remove_item_combine: merge child `pos` into its left neighbour and free its block. */
    method Combine(nodei: Ref, pos: nat)
      requires Linked(nodei, pos)
      requires nodes[nodes[nodei].childsi[pos - 1]].count + nodes[nodes[nodei].childsi[pos]].count < TREE_NODECOUNT
      modifies `nodes, `undersize
      ensures undersize <==> old(nodes[nodei].count) - 1 < TREE_NODEMIN
      ensures
        var lefti, righti := old(nodes[nodei].childsi[pos - 1]), old(nodes[nodei].childsi[pos]);
        var left, right, node := old(nodes)[lefti], old(nodes)[righti], old(nodes)[nodei];
        nodes.Keys == old(nodes.Keys) - {righti}
        && Holds(nodes, lefti, left.Ks() + [node.keys[pos - 1]] + right.Ks(), left.Cs() + right.Cs())
        && Holds(nodes, nodei, node.Ks()[..pos - 1] + node.Ks()[pos..], node.Cs()[..pos] + node.Cs()[pos + 1..])
        && forall r :: r in old(nodes) && r != nodei && r != lefti && r != righti ==> nodes[r] == old(nodes)[r]
    {
      var righti, lefti := nodes[nodei].childsi[pos], nodes[nodei].childsi[pos - 1];
      AppendNode(lefti, righti, nodes[nodei].keys[pos - 1]);
      RemoveItemTarget(nodei, pos - 1);
      nodes := nodes - {righti};
    }

    /** Restoring from the left neighbour: it has a key to spare. */
    method RestoreFromLeft(nodei: Ref, pos: nat, ghost t: Shape, ghost h: nat, ghost lo: nat) returns (ghost t1: Shape)
      requires pos > 0 && Repairable(nodes, t, h, lo, pos - 1, pos) && Root(t) == nodei
      requires |t.ts[pos - 1].ks| > TREE_NODEMIN
      modifies `nodes
      ensures Repaired(old(nodes), nodes, t, h, lo, t1, false)
      ensures RotatedRight.requires(t, pos - 1) && t1 == RotatedRight(t, pos - 1)
    {
      ghost var n1 := nodes;
      LinksOf(nodes, t, pos - 1);
      MoveRight(nodei, pos);
      t1 := RotatedRight(t, pos - 1);
      RightRepairs(n1, nodes, t, h, lo, pos - 1);
    }

    method RestoreFromRight(nodei: Ref, pos: nat, ghost t: Shape, ghost h: nat, ghost lo: nat) returns (ghost t1: Shape)
      requires pos > 0 && Repairable(nodes, t, h, lo, pos - 1, pos - 1) && Root(t) == nodei
      requires |t.ts[pos].ks| > TREE_NODEMIN
      modifies `nodes
      ensures Repaired(old(nodes), nodes, t, h, lo, t1, false)
      ensures RotatedLeft.requires(t, pos - 1) && t1 == RotatedLeft(t, pos - 1)
    {
      ghost var n1 := nodes;
      LinksOf(nodes, t, pos - 1);
      MoveLeft(nodei, pos);
      t1 := RotatedLeft(t, pos - 1);
      LeftRepairs(n1, nodes, t, h, lo, pos - 1);
    }

    method RestoreByMerge(nodei: Ref, pos: nat, ghost t: Shape, ghost h: nat, ghost lo: nat, ghost short: nat)
      returns (ghost t1: Shape)
      requires pos > 0 && Repairable(nodes, t, h, lo, pos - 1, short) && Root(t) == nodei
      requires |t.ts[pos - 1].ks| + |t.ts[pos].ks| < TREE_NODECOUNT
      modifies `nodes, `undersize
      ensures Repaired(old(nodes), nodes, t, h, lo, t1, undersize)
      ensures Combined.requires(t, pos - 1) && t1 == Combined(t, pos - 1)
    {
      ghost var n1 := nodes;
      LinksOf(nodes, t, pos - 1);
      Combine(nodei, pos);
      t1 := Combined(t, pos - 1);
      CombineRepairs(n1, nodes, t, h, lo, pos - 1, short);
    }

    /** _remove_item_restore: child `pos` is one key short, and is balanced with its left neighbour if it has one. */
    method RemoveItemRestore(nodei: Ref, pos: nat, ghost t: Shape, ghost h: nat, ghost lo: nat)
      returns (ghost t1: Shape)
      requires OneShort(t, h, lo, pos) && Encoded(nodes, t) && Sole(Bag(t)) && 1 <= lo <= TREE_NODEMIN
      requires Root(t) == nodei
      modifies `nodes, `undersize
      ensures Repaired(old(nodes), nodes, t, h, lo, t1, undersize)
      ensures Mendable(t, pos) && t1 == MendedIfShort(t, pos) && Balanced(t, pos, t1)
    {
      undersize := false;
      ShortHasNeighbour(nodes, t, h, lo, pos);
      ShortMends(t, h, lo, pos);
      MendedBalances(t, pos);
      hide Balanced;
      hide MendedIfShort;
      hide RotatedRight;
      hide RotatedLeft;
      hide Combined;
      hide Repaired;
      if pos > 0 {
        if nodes[nodes[nodei].childsi[pos - 1]].count > TREE_NODEMIN {
          t1 := RestoreFromLeft(nodei, pos, t, h, lo);
        } else {
          t1 := RestoreByMerge(nodei, pos, t, h, lo, pos);
        }
      } else {
        if nodes[nodes[nodei].childsi[1]].count > TREE_NODEMIN {
          t1 := RestoreFromRight(nodei, 1, t, h, lo);
        } else {
          t1 := RestoreByMerge(nodei, 1, t, h, lo, 0);
        }
      }
    }

    /** The walk down the first links to the smallest key. */
    method Leftmost(nodei: Ref, ghost t: Shape, ghost h: nat) returns (k: NodeKey)
      requires Encoded(nodes, t) && Root(t) == nodei && Good(t, h, 1) && h > 0
      ensures Flat(t) != [] && k == Flat(t)[0]
    {
      var tmp := nodei;
      ghost var c, g := t, h;
      FirstKey(c, g);
      assert nodes[tmp].Cs()[0] == Roots(c.ts)[0];
      while nodes[tmp].childsi[0] != EMPTY
        invariant Encoded(nodes, c) && Root(c) == tmp && Good(c, g, 1) && g > 0
        invariant Flat(t) != [] && Flat(c) != [] && Flat(c)[0] == Flat(t)[0]
        invariant tmp in nodes && nodes[tmp].Sized() && nodes[tmp].childsi[0] == Root(c.ts[0])
        decreases g
      {
        FirstKey(c, g);
        assert Kids(nodes, c.ts);
        tmp := nodes[tmp].childsi[0];
        c, g := c.ts[0], g - 1;
        FirstKey(c, g);
        assert nodes[tmp].Cs()[0] == Roots(c.ts)[0];
      }
      FirstKey(c, g);
      assert Kids(nodes, c.ts);
      assert nodes[tmp].Ks()[0] == c.ks[0];
      k := nodes[tmp].keys[0];
    }

    /** After a removal in child `pos` left the tree `u`: restore the child if it is one key short. */
    method RestoreIfShort(nodei: Ref, pos: nat, ghost n0: Blocks, ghost t: Shape, ghost k: NodeKey, ghost u: Shape,
                          ghost h: nat, ghost lo: nat)
      returns (ghost t1: Shape)
      requires Removed(n0, nodes, t, k, u) && Root(t) == nodei && Sole(Bag(t)) && 1 <= lo <= TREE_NODEMIN
      requires if undersize then OneShort(u, h, lo, pos) && k in Flat(t) else Good(u, h, lo)
      requires u.Branch? && pos < |u.ts|
      modifies `nodes, `undersize
      ensures Removed(n0, nodes, t, k, t1) && Occupied(t1, h, lo, undersize)
      ensures t1 == MendedIfShort(u, pos)
    {
      t1 := u;
      if !undersize {
        NoneShort(u, h, lo, pos);
      }
      hide MendedIfShort;
      hide Balanced;
      if undersize {
        ghost var n1 := nodes;
        ShrunkSole(n0, n1, Bag(t), Bag(u));
        t1 := RemoveItemRestore(nodei, pos, u, h, lo);
        RemovedThenRepaired(n0, n1, nodes, t, k, u, h, lo, t1, undersize);
      }
    }

    /** _remove_item_recursive. */
    method RemoveItemRecursive(nodei: Ref, ghost t: Shape, ghost h: nat, ghost lo: nat) returns (ghost t1: Shape)
      requires Encoded(nodes, t) && Root(t) == nodei && Good(t, h, lo) && 1 <= lo <= TREE_NODEMIN
      requires Sorted(Flat(t)) && Sole(Bag(t)) && !undersize
      modifies `nodes, `current_item, `deleted, `undersize
      ensures Removed(old(nodes), nodes, t, old(current_item), t1) && Occupied(t1, h, lo, undersize)
      ensures t1 == RemShape(t, old(current_item))
      ensures deleted <==> old(deleted) || old(current_item) in Flat(t)
      decreases h, 1
    {
      TopBlock(nodes, t, h, lo);
      hide Encoded;
      hide Good;
      hide Bag;
      hide Removed;
      hide Occupied;
      hide Less;
      hide PosOf;
      if nodei == EMPTY {
        t1 := Nil;
        NilRemoved(nodes, current_item, lo);
        return;
      }
      hide Flat;
      hide RemShape;
      var pos := Position(nodei, current_item);
      ghost var n0, k := nodes, current_item;
      assert nodes[nodei].Ks() == t.ks;
      if pos < nodes[nodei].count && Compare(current_item, nodes[nodei].keys[pos]) == 0 {
        deleted := true;
        KeyHere(t, pos);
        t1 := RemoveHere(nodei, pos, t, h, lo);
      } else {
        Enters(n0, t, h, lo, pos, k);
        ghost var c := RemoveItemRecursive(nodes[nodei].childsi[pos], t.ts[pos], h - 1, TREE_NODEMIN);
        t1 := RestoreAfterChild(nodei, pos, n0, t, k, c, h, lo);
      }
    }

    method RestoreAfterChild(nodei: Ref, pos: nat, ghost n0: Blocks, ghost t: Shape, ghost k: NodeKey, ghost c: Shape,
                             ghost h: nat, ghost lo: nat)
      returns (ghost t1: Shape)
      requires Entering(n0, t, h, lo, pos, k) && Root(t) == nodei && 1 <= lo <= TREE_NODEMIN
      requires Removed(n0, nodes, t.ts[pos], k, c) && Occupied(c, h - 1, TREE_NODEMIN, undersize)
      requires GoesInto(t, pos, k) && c == RemShape(t.ts[pos], k)
      modifies `nodes, `undersize
      ensures Removed(n0, nodes, t, k, t1) && Occupied(t1, h, lo, undersize)
      ensures t1 == RemShape(t, k)
      ensures k in Flat(t) <==> k in Flat(t.ts[pos])
    {
      hide *;
      RemovedFromChild(t, pos, k, c);
      LeftChild(n0, nodes, t, h, lo, pos, k, c, undersize);
      t1 := RestoreIfShort(nodei, pos, n0, t, k, Replaced(t, pos, c), h, lo);
    }

    /** The key is key `pos` of this node: its successor takes its place, or the leaf closes up. */
    method RemoveHere(nodei: Ref, pos: nat, ghost t: Shape, ghost h: nat, ghost lo: nat) returns (ghost t1: Shape)
      requires t.Branch? && Encoded(nodes, t) && Root(t) == nodei && Good(t, h, lo) && 1 <= lo <= TREE_NODEMIN
      requires Sorted(Flat(t)) && Sole(Bag(t)) && !undersize && FoundAt(t, pos, current_item) && deleted
      modifies `nodes, `current_item, `deleted, `undersize
      ensures Removed(old(nodes), nodes, t, old(current_item), t1) && Occupied(t1, h, lo, undersize)
      ensures t1 == RemShape(t, old(current_item))
      ensures deleted
      decreases h, 0, 1
    {
      assert pos < |t.ks| && t.ks[pos] == current_item;
      hide RemShape;
      hide PosOf;
      ghost var n0 := nodes;
      var tmpnodei := nodes[nodei].childsi[pos + 1];
      assert nodes[nodei].Cs()[pos + 1] == Roots(t.ts)[pos + 1];
      assert Kids(nodes, t.ts);
      if tmpnodei != EMPTY {
        t1 := RemoveSuccessor(nodei, pos, t, h, lo);
      } else {
        RemoveItemTarget(nodei, pos);
        t1 := LeafWithout(t, pos);
        LeafRemoved(n0, nodes, t, h, lo, pos);
        RemovedFromLeaf(t, pos, t.ks[pos]);
      }
    }

    method RemoveSuccessor(nodei: Ref, pos: nat, ghost t: Shape, ghost h: nat, ghost lo: nat) returns (ghost t1: Shape)
      requires t.Branch? && Encoded(nodes, t) && Root(t) == nodei && Good(t, h, lo) && 1 <= lo <= TREE_NODEMIN
      requires Sorted(Flat(t)) && Sole(Bag(t)) && !undersize && pos < |t.ks| && FoundAt(t, pos, t.ks[pos]) && deleted
      requires t.ts[pos + 1].Branch? && Encoded(nodes, t.ts[pos + 1])
      requires nodes[nodei].childsi[pos + 1] == Root(t.ts[pos + 1])
      modifies `nodes, `current_item, `deleted, `undersize
      ensures Removed(old(nodes), nodes, t, t.ks[pos], t1) && Occupied(t1, h, lo, undersize)
      ensures t1 == RemShape(t, t.ks[pos])
      ensures deleted
      decreases h, 0, 0
    {
      ghost var n0, c0 := nodes, t.ts[pos + 1];
      TopBlock(nodes, t, h, lo);
      hide Encoded;
      hide Good;
      hide Flat;
      hide Bag;
      hide Sole;
      hide Sorted;
      hide Removed;
      hide Occupied;
      hide Rekeyed;
      hide RemShape;
      hide PosOf;
      GoodWeaken(c0, h - 1, TREE_NODEMIN, 1);
      FirstKey(t, h);
      ChildSorted(t, pos + 1);
      var succ := Leftmost(nodes[nodei].childsi[pos + 1], c0, h - 1);
      PromoteKey(nodei, pos, succ, t);
      ghost var n1 := nodes;
      ghost var c := RemoveItemRecursive(nodes[nodei].childsi[pos + 1], c0, h - 1, TREE_NODEMIN);
      t1 := RestoreAfterSuccessor(nodei, pos, n0, n1, t, succ, c, h, lo);
    }

    method PromoteKey(nodei: Ref, pos: nat, succ: NodeKey, ghost t: Shape)
      requires t.Branch? && Encoded(nodes, t) && Root(t) == nodei && Sole(Bag(t)) && pos < |t.ks|
      modifies `nodes, `current_item
      ensures Rewritten(old(nodes), nodes, nodei) && current_item == succ
      ensures Encoded(nodes, Rekeyed(t, pos, succ)) && nodes[nodei].childsi[pos + 1] == Root(t.ts[pos + 1])
      ensures Sole(Bag(t.ts[pos + 1])) && Encoded(nodes, t.ts[pos + 1])
    {
      ghost var n0 := nodes;
      var node := nodes[nodei];
      nodes := nodes[nodei := node.(keys := node.keys[pos := succ])];
      current_item := succ;
      RekeyedBlocks(n0, nodes, t, pos, succ);
      ChildBag(t, pos + 1);
      assert nodes[nodei].Cs()[pos + 1] == Roots(t.ts)[pos + 1];
      assert Kids(nodes, t.ts);
    }

    method RestoreAfterSuccessor(nodei: Ref, pos: nat, ghost n0: Blocks, ghost n1: Blocks, ghost t: Shape,
                                 ghost s: NodeKey, ghost c: Shape, ghost h: nat, ghost lo: nat)
      returns (ghost t1: Shape)
      requires t.Branch? && Root(t) == nodei && Encoded(n0, t) && Good(t, h, lo) && Sole(Bag(t)) && Sorted(Flat(t))
      requires 1 <= lo <= TREE_NODEMIN
      requires pos < |t.ks| && Flat(t.ts[pos + 1]) != [] && s == Flat(t.ts[pos + 1])[0]
      requires Encoded(n1, Rekeyed(t, pos, s)) && Rewritten(n0, n1, nodei)
      requires Removed(n1, nodes, t.ts[pos + 1], s, c) && Occupied(c, h - 1, TREE_NODEMIN, undersize)
      requires FoundAt(t, pos, t.ks[pos]) && t.ts[pos + 1].Branch? && c == RemShape(t.ts[pos + 1], s)
      modifies `nodes, `undersize
      ensures Removed(n0, nodes, t, t.ks[pos], t1) && Occupied(t1, h, lo, undersize)
      ensures t1 == RemShape(t, t.ks[pos])
    {
      RemovedForSuccessor(t, pos, t.ks[pos], s, c);
      hide RemShape;
      hide MendedIfShort;
      hide PosOf;
      Promoted(n0, n1, nodes, t, h, lo, pos, s, c);
      KeyHere(t, pos);
      ReplacedOccupied(Rekeyed(t, pos, s), pos + 1, c, h, lo, undersize);
      t1 := RestoreIfShort(nodei, pos + 1, n0, t, t.ks[pos], Replaced(Rekeyed(t, pos, s), pos + 1, c), h, lo);
    }

    /** remove_tree_safe and remove_tree_unsafe, within one category. */
    method Remove(itm: NodeKey)
      requires Valid()
      modifies this
      ensures Valid() && Flat(shape) == Del(old(Flat(shape)), itm)
      ensures keys == old(keys) - {itm}
      ensures itm !in old(keys) ==> nodes == old(nodes) && rooti == old(rooti) && shape == old(shape)
      ensures shape == RemovedShape(old(shape), itm)
    {
      RemoveFromRoot(itm);
      if deleted {
        DropEmptyRoot();
      }
    }

    method RemoveFromRoot(itm: NodeKey)
      requires Valid()
      modifies this
      ensures Encoded(nodes, shape) && Root(shape) == rooti && Sorted(Flat(shape)) && Bag(shape) == multiset(nodes.Keys)
      ensures rooti == old(rooti) && keys == KeySet(Flat(shape)) && keys == old(keys) - {itm}
      ensures Flat(shape) == Del(old(Flat(shape)), itm) && Occupied(shape, height, 1, undersize)
      ensures deleted <==> itm in old(keys)
      ensures shape == RemShape(old(shape), itm)
      ensures if deleted then shape.Branch? else Good(shape, height, 1) && nodes == old(nodes) && shape == old(shape)
    {
      hide Encoded;
      hide Flat;
      hide Bag;
      hide Good;
      hide Sorted;
      hide Del;
      hide RemShape;
      deleted, undersize := false, false;
      current_item := itm;
      OwnedIsSole(nodes, shape);
      ghost var n0, t0 := nodes, shape;
      shape := RemoveItemRecursive(rooti, shape, height, 1);
      RemovedFromWhole(n0, nodes, t0, itm, shape, height, undersize);
      keys := keys - {itm};
    }

    method DropEmptyRoot()
      requires Encoded(nodes, shape) && Root(shape) == rooti && Sorted(Flat(shape))
      requires Bag(shape) == multiset(nodes.Keys)
      requires keys == KeySet(Flat(shape)) && shape.Branch? && Occupied(shape, height, 1, undersize)
      modifies `nodes, `rooti, `shape, `height
      ensures Valid() && Flat(shape) == old(Flat(shape)) && keys == old(keys)
      ensures shape == Collapsed(old(shape))
    {
      var nodei := rooti;
      if nodes[nodei].count == 0 {
        RootCollapses(nodes, shape, height);
        rooti := nodes[nodei].childsi[0];
        nodes := nodes - {nodei};
        shape, height := shape.ts[0], height - 1;
      }
    }

    // ---- searches ----

    /** _search_item_recurcive: the keys for which the callback is called, and the nodes visited. */
    method SearchItem(itm: NodeKey) returns (calls: seq<NodeKey>, visited: nat)
      requires Valid()
      ensures calls == if itm in keys then [itm] else []
      ensures visited <= height
      ensures visited > 0 ==> 2 * Pow3(visited - 1) <= |Flat(shape)| + 1
    {
      hide Encoded;
      hide Good;
      hide Flat;
      hide Sorted;
      hide Bag;
      hide Pow3;
      GoodWeaken(shape, height, 1, 0);
      calls, visited := [], 0;
      var findnodei := rooti;
      ghost var t, h := shape, height;
      while findnodei != EMPTY
        invariant Encoded(nodes, t) && Root(t) == findnodei && Good(t, h, 0) && Sorted(Flat(t))
        invariant visited + h == height && calls == []
        invariant itm in Flat(shape) <==> itm in Flat(t)
        decreases h
      {
        TopBlock(nodes, t, h, 0);
        visited := visited + 1;
        var pos := Position(findnodei, itm);
        if pos < nodes[findnodei].count && Compare(itm, nodes[findnodei].keys[pos]) == 0 {
          calls := [itm];
          KeyHere(t, pos);
          LevelsBound(shape, height, visited);
          return;
        }
        if pos < nodes[findnodei].count { CompareIsStrictOrder(nodes[findnodei].keys[pos], itm, itm); }
        InsGoesIntoChild(t, pos, itm);
        findnodei := nodes[findnodei].childsi[pos];
        t, h := t.ts[pos], h - 1;
        GoodWeaken(t, h, TREE_NODEMIN, 0);
      }
      TopBlock(nodes, t, h, 0);
      if visited > 0 { LevelsBound(shape, height, visited); }
    }

    /** The first key of a node whose hash is not below `keyhash`. */
    method HashPosition(nodei: Ref, keyhash: nat) returns (pos: nat)
      requires nodei in nodes && nodes[nodei].Sized()
      ensures pos == FirstAtLeast(nodes[nodei].Ks(), keyhash)
    {
      var node := nodes[nodei];
      pos := 0;
      while pos < node.count && node.keys[pos].keyhash < keyhash
        invariant pos <= node.count
        invariant FirstAtLeast(node.Ks(), keyhash) == pos + FirstAtLeast(node.Ks()[pos..], keyhash)
      {
        pos := pos + 1;
      }
    }

    /** _search_item_only_keyhash_recurcive: the keys handed to the callback, in order. */
    method SearchHashRecursive(nodei: Ref, keyhash: nat, stop: NodeKey -> bool, ghost t: Shape)
      returns (calls: seq<NodeKey>)
      requires Encoded(nodes, t) && Root(t) == nodei
      ensures calls == Visits(t, keyhash, stop)
      decreases t, 1
    {
      calls := [];
      var findnodei := nodei;
      ghost var c := t;
      while findnodei != EMPTY
        invariant Encoded(nodes, c) && Root(c) == findnodei && (c == t || c < t)
        invariant calls + Visits(c, keyhash, stop) == Visits(t, keyhash, stop)
        decreases c
      {
        ghost var before := calls;
        var stopped, more;
        stopped, more, findnodei, c := SearchHashNode(findnodei, keyhash, stop, c);
        calls := calls + more;
        if stopped {
          return;
        }
        Assoc(before, more, Visits(c, keyhash, stop));
      }
    }

    /** One node of the search, and the child into which the search then goes down. */
    method SearchHashNode(nodei: Ref, keyhash: nat, stop: NodeKey -> bool, ghost t: Shape)
      returns (stopped: bool, calls: seq<NodeKey>, next: Ref, ghost c: Shape)
      requires t.Branch? && Encoded(nodes, t) && Root(t) == nodei
      ensures c < t && Encoded(nodes, c) && Root(c) == next
      ensures Visits(t, keyhash, stop) == if stopped then calls else calls + Visits(c, keyhash, stop)
      decreases t, 0, 1
    {
      var prev_pos := HashPosition(nodei, keyhash);
      LinkTo(nodes, t, prev_pos);
      c := t.ts[prev_pos];
      next := nodes[nodei].childsi[prev_pos];
      stopped, calls := false, [];
      if prev_pos == 0 && nodes[nodei].count > 0 && nodes[nodei].keys[0].keyhash > keyhash {
      } else if prev_pos < nodes[nodei].count {
        stopped, calls := SweepNode(nodei, prev_pos, keyhash, stop, t);
      }
    }

    /** The part of the search that stays in one node and goes into its right children. */
    method SweepNode(nodei: Ref, prev_pos: nat, keyhash: nat, stop: NodeKey -> bool, ghost t: Shape)
      returns (stopped: bool, calls: seq<NodeKey>)
      requires Encoded(nodes, t) && Root(t) == nodei && Sweeps(t, keyhash, prev_pos)
      ensures Visits(t, keyhash, stop) == if stopped then calls else calls + Visits(t.ts[prev_pos], keyhash, stop)
      decreases t, 0, 0, 1
    {
      hide Visits;
      hide Sweeps;
      hide SweptTo;
      hide OneKey;
      hide SweepFrom;
      SweptStart(t, prev_pos, keyhash, stop);
      NodeOf(nodes, t);
      InUse(nodes[nodei]);
      hide Encoded;
      hide Kids;
      stopped, calls := false, [];
      var pos := prev_pos;
      while pos < nodes[nodei].count
        invariant prev_pos <= pos <= |t.ks| && !stopped && SweptTo(t, prev_pos, pos, keyhash, stop, calls)
      {
        SweptOn(t, prev_pos, pos, keyhash, stop, calls);
        var more;
        stopped, more := SweepOne(nodei, prev_pos, pos, keyhash, stop, t);
        calls := calls + more;
        if stopped {
          return;
        }
        pos := pos + 1;
      }
      SweptAll(t, prev_pos, keyhash, stop, calls);
      if nodes[nodei].count != prev_pos {
        LinkTo(nodes, t, |t.ks|);
        var more := SearchHashRecursive(nodes[nodei].childsi[nodes[nodei].count], keyhash, stop, t.ts[|t.ks|]);
        calls := calls + more;
      }
    }

    /** One key of the node, and the child in front of it except for the first candidate. */
    method SweepOne(nodei: Ref, prev_pos: nat, pos: nat, keyhash: nat, stop: NodeKey -> bool, ghost t: Shape)
      returns (stopped: bool, calls: seq<NodeKey>)
      requires t.Branch? && |t.ts| == |t.ks| + 1 && Encoded(nodes, t) && Root(t) == nodei && pos < |t.ks|
      ensures stopped <==> t.ks[pos].keyhash == keyhash && stop(t.ks[pos])
      ensures calls == OneKey(t, prev_pos, pos, keyhash, stop)
      decreases t, 0, 0, 0
    {
      LinkTo(nodes, t, pos);
      stopped, calls := false, [];
      if keyhash == nodes[nodei].keys[pos].keyhash {
        calls := [nodes[nodei].keys[pos]];
        if stop(nodes[nodei].keys[pos]) {
          stopped := true;
          return;
        }
      }
      if prev_pos != pos {
        var more := SearchHashRecursive(nodes[nodei].childsi[pos], keyhash, stop, t.ts[pos]);
        calls := calls + more;
      }
    }

    /** find_tree_only_keyhash_safe, within one category. */
    method SearchHash(keyhash: nat, stop: NodeKey -> bool) returns (calls: seq<NodeKey>)
      requires Valid()
      ensures calls == Visits(shape, keyhash, stop)
      ensures forall i, j :: 0 <= i < j < |calls| ==> calls[i] != calls[j]
      ensures forall k :: k in calls ==> k in keys && k.keyhash == keyhash
      ensures (forall k :: k in calls ==> !stop(k)) ==> forall k :: k in keys && k.keyhash == keyhash ==> k in calls
    {
      calls := SearchHashRecursive(rooti, keyhash, stop, shape);
      VisitsWithin(shape, keyhash, stop);
      OnceEach(Flat(shape), calls);
      if NoStop(calls, stop) {
        VisitsComplete(shape, height, 1, keyhash, stop);
      }
    }

    /** _count_node_recursive_unsafe. */
    method CountNode(nodei: Ref, ghost t: Shape) returns (count: nat)
      requires Encoded(nodes, t) && Root(t) == nodei
      ensures count == |Flat(t)|
      decreases t
    {
      count := 0;
      if nodei != EMPTY {
        var n := 0;
        while n < nodes[nodei].count
          invariant n <= |t.ks| && count == |Lead(t.ks[..n], t.ts[..n])|
        {
          LinkTo(nodes, t, n);
          var below := CountNode(nodes[nodei].childsi[n], t.ts[n]);
          LeadStep(t, n);
          count := count + below + 1;
          n := n + 1;
        }
        LinkTo(nodes, t, |t.ks|);
        var below := CountNode(nodes[nodei].childsi[nodes[nodei].count], t.ts[|t.ks|]);
        LeadWhole(t);
        count := count + below;
      }
    }
  }

  // ---- whole runs ----

  datatype Change = Insert(k: NodeKey) | Delete(k: NodeKey)

  /** The keys that a sequence of changes leaves. */
  ghost function KeysAfter(changes: seq<Change>): (r: set<NodeKey>) {
    if changes == [] then {}
    else
      var before := KeysAfter(changes[..|changes| - 1]);
      match changes[|changes| - 1]
      case Insert(k) => before + {k}
      case Delete(k) => before - {k}
  }

  /** What one change makes of a shape. */
  ghost function Changed(t: Shape, c: Change): (u: Shape) {
    match c
    case Insert(k) => AddShape(t, k)
    case Delete(k) => RemovedShape(t, k)
  }

  /** The shape that a sequence of changes leaves, without the addresses of the blocks. */
  ghost function ShapeAfter(changes: seq<Change>): (t: Shape) {
    if changes == [] then Nil else Changed(ShapeAfter(changes[..|changes| - 1]), changes[|changes| - 1])
  }

  lemma ShapeStep(changes: seq<Change>, n: nat, h: nat, before: Shape, after: Shape)
    requires n < |changes| && Good(before, h, 1) && Alike(before, ShapeAfter(changes[..n]))
    requires Alike(after, Changed(before, changes[n]))
    ensures Alike(after, ShapeAfter(changes[..n + 1]))
  {
    assert changes[..n + 1][..n] == changes[..n];
    hide Alike;
    hide AddShape;
    hide RemovedShape;
    match changes[n]
    case Insert(k) =>
      AlikeAdded(before, ShapeAfter(changes[..n]), h, k);
      AlikeThrough(after, AddShape(before, k), AddShape(ShapeAfter(changes[..n]), k));
    case Delete(k) =>
      AlikeRemovedShape(before, ShapeAfter(changes[..n]), k);
      AlikeThrough(after, RemovedShape(before, k), RemovedShape(ShapeAfter(changes[..n]), k));
  }

  /** Any changes to an empty tree: it holds exactly the keys left, in order and in balance, every
      allocated block is reached once from the root, and no other block is. Its shape, and with it every search by hash,
      follows from the changes alone. */
  method RunChanges(changes: seq<Change>) returns (t: Tree)
    ensures fresh(t) && t.Valid() && t.keys == KeysAfter(changes)
    ensures Encoded(t.nodes, t.shape) && Bag(t.shape) == multiset(t.nodes.Keys) && Good(t.shape, t.height, 1)
    ensures t.height > 0 ==> 2 * Pow3(t.height - 1) - 1 <= |t.keys|
    ensures t.keys == {} ==> t.nodes == map[]
    ensures Alike(t.shape, ShapeAfter(changes))
    ensures forall hash, stop :: Visits(t.shape, hash, stop) == Visits(ShapeAfter(changes), hash, stop)
  {
    hide Alike;
    hide Visits;
    hide AddShape;
    hide RemovedShape;
    hide Flat;
    hide Tree.Valid;
    hide Good;
    hide Bag;
    hide Encoded;
    hide Pow3;
    t := new Tree();
    AlikeSelf(Nil);
    for n := 0 to |changes|
      invariant fresh(t) && t.Valid() && t.keys == KeysAfter(changes[..n])
      invariant Alike(t.shape, ShapeAfter(changes[..n]))
    {
      assert changes[..n + 1][..n] == changes[..n];
      t.Facts();
      ghost var before, h := t.shape, t.height;
      match changes[n] {
        case Insert(k) => t.Add(k);
        case Delete(k) => t.Remove(k);
      }
      AlikeSelf(t.shape);
      ShapeStep(changes, n, h, before, t.shape);
    }
    assert changes[..|changes|] == changes;
    t.Facts();
    forall hash, stop ensures Visits(t.shape, hash, stop) == Visits(ShapeAfter(changes), hash, stop) {
      AlikeVisits(t.shape, ShapeAfter(changes), hash, stop);
    }
  }

  lemma EmptyHasNoBlocks(nodes: Blocks, t: Shape, h: nat)
    requires Good(t, h, 1) && Bag(t) == multiset(nodes.Keys) && Flat(t) == []
    ensures nodes == map[]
  {
    HeightBound(t, h, 1);
    Pow3Positive(if h > 0 then h - 1 else 0);
    assert t.Nil?;
    forall r ensures r !in nodes { assert multiset(nodes.Keys)[r] == 0; }
  }
}
