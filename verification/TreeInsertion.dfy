/** Why the steps of an insertion keep the tree: a child that absorbed the key, a
    child that split below a node with room, and a split that goes on upwards. */
module TreeInsertion {
  import opened NodeKeys
  import opened Shapes
  import opened ShapeInsertion
  import opened TreeNodes

  /** The search for `k` in the tree `t` goes into child `pos`. */
  ghost predicate Heads(t: Shape, pos: nat, k: NodeKey) {
    t.Branch? && |t.ts| == |t.ks| + 1 && pos < |t.ts|
    && Sorted(Flat(t))
    && (pos > 0 ==> Less(t.ks[pos - 1], k))
    && (pos < |t.ks| ==> Less(k, t.ks[pos]))
  }

  lemma Parts(t: Shape, pos: nat)
    requires t.Branch? && |t.ts| == |t.ks| + 1 && pos < |t.ts|
    ensures t.ks == t.ks[..pos] + t.ks[pos..]
    ensures t.ts == t.ts[..pos] + [t.ts[pos]] + t.ts[pos + 1..]
  {
  }

  /** Adding a key that belongs into child `pos` changes only that child's part of the order. */
  lemma InsGoesIntoChild(t: Shape, pos: nat, k: NodeKey)
    requires Heads(t, pos, k)
    ensures Ins(Flat(t), k) ==
      Lead(t.ks[..pos], t.ts[..pos]) + Ins(Flat(t.ts[pos]), k) + Trail(t.ks[pos..], t.ts[pos + 1..])
    ensures Sorted(Flat(t.ts[pos])) && (k in Flat(t) <==> k in Flat(t.ts[pos]))
  {
    var kl, kr, tl, c, tr := t.ks[..pos], t.ks[pos..], t.ts[..pos], t.ts[pos], t.ts[pos + 1..];
    Parts(t, pos);
    Locate(kl, tl, c, kr, tr, k);
    WeaveAround(kl, tl, c, kr, tr);
    InsInMiddle(Lead(kl, tl), Flat(c), Trail(kr, tr), k);
  }

  /** The bag of one child is part of the parent's, and is as sole as the parent's. */
  lemma ChildBag(t: Shape, pos: nat)
    requires t.Branch? && pos < |t.ts| && Sole(Bag(t))
    ensures Sole(Bag(t.ts[pos])) && t.at !in Bag(t.ts[pos])
    ensures Bag(t) == multiset{t.at} + Bags(t.ts[..pos]) + Bag(t.ts[pos]) + Bags(t.ts[pos + 1..])
  {
    var tl, c, tr := t.ts[..pos], t.ts[pos], t.ts[pos + 1..];
    assert t.ts == tl + [c] + tr;
    BagsAround(tl, c, tr);
    forall r ensures Bag(c)[r] <= 1 {
      assert Bag(t)[r] <= 1;
    }
    assert Bag(t)[t.at] <= 1;
  }

  lemma GrownLift(n0: Blocks, n1: Blocks, b: multiset<Ref>, b1: multiset<Ref>, rest: multiset<Ref>)
    requires Grown(n0, n1, b, b1)
    ensures Grown(n0, n1, rest + b, rest + b1)
  {
  }

  lemma ReplacedSame(t: Shape, pos: nat)
    requires t.Branch? && pos < |t.ts|
    ensures Replaced(t, pos, t.ts[pos]) == t
  {
    assert t.ts == t.ts[..pos] + [t.ts[pos]] + t.ts[pos + 1..];
  }

  lemma ReplacedGood(t: Shape, pos: nat, c: Shape, h: nat, lo: nat)
    requires t.Branch? && pos < |t.ts| && Good(t, h, lo) && Good(c, h - 1, TREE_NODEMIN)
    ensures Good(Replaced(t, pos, c), h, lo)
  {
  }

  lemma ReplacedBag(t: Shape, pos: nat, c: Shape)
    requires t.Branch? && pos < |t.ts|
    ensures Bag(Replaced(t, pos, c)) == multiset{t.at} + Bags(t.ts[..pos]) + Bags(t.ts[pos + 1..]) + Bag(c)
  {
    BagsAround(t.ts[..pos], c, t.ts[pos + 1..]);
  }

  lemma ReplacedGrown(n0: Blocks, n1: Blocks, t: Shape, pos: nat, c: Shape)
    requires t.Branch? && pos < |t.ts| && Grown(n0, n1, Bag(t.ts[pos]), Bag(c))
    ensures Grown(n0, n1, Bag(t), Bag(Replaced(t, pos, c)))
  {
    var rest := multiset{t.at} + Bags(t.ts[..pos]) + Bags(t.ts[pos + 1..]);
    assert Bag(t) == rest + Bag(t.ts[pos]) by { ReplacedSame(t, pos); ReplacedBag(t, pos, t.ts[pos]); }
    assert Bag(Replaced(t, pos, c)) == rest + Bag(c) by { ReplacedBag(t, pos, c); }
    GrownLift(n0, n1, Bag(t.ts[pos]), Bag(c), rest);
  }

  lemma ReplacedRoots(t: Shape, pos: nat, c: Shape)
    requires t.Branch? && pos < |t.ts| && Root(c) == Root(t.ts[pos])
    ensures Roots(Replaced(t, pos, c).ts) == Roots(t.ts)
  {
  }

  lemma ReplacedEncoded(n0: Blocks, n1: Blocks, t: Shape, pos: nat, c: Shape)
    requires t.Branch? && pos < |t.ts| && Encoded(n0, t) && Sole(Bag(t))
    requires Grown(n0, n1, Bag(t.ts[pos]), Bag(c)) && Encoded(n1, c) && Root(c) == Root(t.ts[pos])
    ensures Encoded(n1, Replaced(t, pos, c))
  {
    var tl, tr := t.ts[..pos], t.ts[pos + 1..];
    ReplacedSame(t, pos);
    SiblingsGrown(n0, n1, t.at, t.ks, tl, t.ts[pos], tr, Bag(c));
    assert Kids(n1, [c]);
    KidsJoin(n1, tl, [c]);
    KidsJoin(n1, tl + [c], tr);
    ReplacedRoots(t, pos, c);
  }

  lemma ReplacedKeys(t: Shape, pos: nat, c: Shape)
    requires t.Branch? && |t.ts| == |t.ks| + 1 && pos < |t.ts|
    ensures Flat(Replaced(t, pos, c)) == Lead(t.ks[..pos], t.ts[..pos]) + Flat(c) + Trail(t.ks[pos..], t.ts[pos + 1..])
  {
    assert t.ks == t.ks[..pos] + t.ks[pos..];
    WeaveAround(t.ks[..pos], t.ts[..pos], c, t.ks[pos..], t.ts[pos + 1..]);
  }

  /** The tree `t1` is `t` with `k` added (or `t` itself if it had `k`), under the same link. */
  ghost predicate Inserted(n0: Blocks, n1: Blocks, t: Shape, h: nat, lo: nat, k: NodeKey, t1: Shape) {
    Encoded(n1, t1) && Root(t1) == Root(t) && Good(t1, h, lo) && Grown(n0, n1, Bag(t), Bag(t1))
    && if k in Flat(t) then t1 == t && n1 == n0 else Flat(t1) == Ins(Flat(t), k)
  }

  /** The tree `t` with `k` added fell into `t1`, the key `up`, and `t2`. */
  ghost predicate Burst(n0: Blocks, n1: Blocks, t: Shape, h: nat, k: NodeKey, t1: Shape, up: NodeKey, t2: Shape) {
    k !in Flat(t) && Encoded(n1, t1) && Encoded(n1, t2) && Root(t1) == Root(t)
    && Good(t1, h, TREE_NODEMIN) && Good(t2, h, TREE_NODEMIN)
    && Flat(t1) + [up] + Flat(t2) == Ins(Flat(t), k)
    && Grown(n0, n1, Bag(t), Bag(t1) + Bag(t2))
  }

  /** The tree to which `k` is added, entering child `pos`. */
  ghost predicate Entering(n0: Blocks, t: Shape, h: nat, lo: nat, pos: nat, k: NodeKey) {
    Heads(t, pos, k) && Encoded(n0, t) && Good(t, h, lo) && Sole(Bag(t))
  }

  /** A search that stops in front of a larger key, or at the end, enters that child. */
  lemma Enters(n0: Blocks, t: Shape, h: nat, lo: nat, pos: nat, k: NodeKey)
    requires t.Branch? && Encoded(n0, t) && Good(t, h, lo) && Sole(Bag(t)) && Sorted(Flat(t)) && pos < |t.ts|
    requires pos > 0 ==> Less(t.ks[pos - 1], k)
    requires pos < |t.ks| ==> !Less(t.ks[pos], k) && t.ks[pos] != k
    ensures Entering(n0, t, h, lo, pos, k)
    ensures Encoded(n0, t.ts[pos]) && Root(t.ts[pos]) == n0[t.at].childsi[pos]
    ensures Sorted(Flat(t.ts[pos])) && Sole(Bag(t.ts[pos]))
  {
    if pos < |t.ks| {
      CompareIsStrictOrder(t.ks[pos], k, k);
    }
    InsGoesIntoChild(t, pos, k);
    ChildBag(t, pos);
    assert n0[t.at].Cs()[pos] == Roots(t.ts)[pos];
  }

  /** The three ends of the descent: below a leaf, at the key itself, and what a search that goes on needs. */
  lemma NilBursts(n: Blocks, k: NodeKey)
    ensures Burst(n, n, Nil, 0, k, Nil, k, Nil)
  {
    assert Flat(Nil) + [k] + Flat(Nil) == [k];
  }

  lemma FoundHere(n: Blocks, t: Shape, h: nat, lo: nat, pos: nat)
    requires t.Branch? && |t.ts| == |t.ks| + 1 && pos < |t.ks| && Encoded(n, t) && Good(t, h, lo)
    ensures Inserted(n, n, t, h, lo, t.ks[pos], t) && t.ks[pos] in Flat(t)
  {
    hide Encoded;
    hide Flat;
    hide Good;
    KeyHere(t, pos);
  }

  /** The child took the key without splitting. */
  lemma Absorbed(n0: Blocks, n1: Blocks, t: Shape, h: nat, lo: nat, pos: nat, k: NodeKey, c: Shape)
    requires Entering(n0, t, h, lo, pos, k)
    requires Inserted(n0, n1, t.ts[pos], h - 1, TREE_NODEMIN, k, c)
    ensures Inserted(n0, n1, t, h, lo, k, Replaced(t, pos, c))
  {
    InsGoesIntoChild(t, pos, k);
    if k in Flat(t) {
      ReplacedSame(t, pos);
    } else {
      ReplacedKeys(t, pos, c);
    }
    ReplacedGood(t, pos, c, h, lo);
    ReplacedEncoded(n0, n1, t, pos, c);
    ReplacedGrown(n0, n1, t, pos, c);
  }

  /** What a split below leaves, before the node itself is touched: on the tree, and in the blocks. */
  ghost predicate ShapeSplit(t: Shape, h: nat, lo: nat, pos: nat, k: NodeKey, c: Shape, up: NodeKey, d: Shape) {
    Heads(t, pos, k) && Good(t, h, lo) && Root(c) == Root(t.ts[pos])
    && Good(c, h - 1, TREE_NODEMIN) && Good(d, h - 1, TREE_NODEMIN)
    && Flat(c) + [up] + Flat(d) == Ins(Flat(t.ts[pos]), k)
  }

  ghost predicate BlockSplit(n0: Blocks, n1: Blocks, t: Shape, pos: nat, c: Shape, d: Shape) {
    t.Branch? && |t.ts| == |t.ks| + 1 && pos < |t.ts| && Encoded(n0, t) && Sole(Bag(t))
    && Grown(n0, n1, Bag(t.ts[pos]), Bag(c) + Bag(d)) && Encoded(n1, c) && Encoded(n1, d)
  }

  lemma WidenedKeys(t: Shape, h: nat, lo: nat, pos: nat, k: NodeKey, c: Shape, up: NodeKey, d: Shape)
    requires ShapeSplit(t, h, lo, pos, k, c, up, d)
    ensures Flat(Widened(t, pos, c, up, d)) == Ins(Flat(t), k)
  {
    InsGoesIntoChild(t, pos, k);
    WeavePair(t.ks[..pos], t.ts[..pos], c, up, d, t.ks[pos..], t.ts[pos + 1..]);
  }

  lemma WidenedChildren(t: Shape, h: nat, lo: nat, pos: nat, k: NodeKey, c: Shape, up: NodeKey, d: Shape)
    requires ShapeSplit(t, h, lo, pos, k, c, up, d)
    ensures var u := Widened(t, pos, c, up, d);
      |u.ks| == |t.ks| + 1 && |u.ts| == |t.ts| + 1
      && forall i :: 0 <= i < |u.ts| ==> Good(u.ts[i], h - 1, TREE_NODEMIN)
  {
  }

  /** The block `at` was written, and the fresh block `r`. */
  ghost predicate SplitOff(n1: Blocks, n2: Blocks, at: Ref, r: Ref) {
    at in n1 && at in n2 && r !in n1 && r in n2 && r != EMPTY
    && n2 == n1[at := n2[at]][r := n2[r]] && n2[at].Sized() && n2[r].Sized()
  }

  lemma WidenedGrown(n0: Blocks, n1: Blocks, t: Shape, pos: nat, c: Shape, up: NodeKey, d: Shape)
    requires t.Branch? && |t.ts| == |t.ks| + 1 && pos < |t.ts| && Grown(n0, n1, Bag(t.ts[pos]), Bag(c) + Bag(d))
    ensures Grown(n0, n1, Bag(t), Bag(Widened(t, pos, c, up, d)))
  {
    var rest := multiset{t.at} + Bags(t.ts[..pos]) + Bags(t.ts[pos + 1..]);
    assert Bag(Widened(t, pos, c, up, d)) == rest + (Bag(c) + Bag(d)) by {
      BagsPair(t.ts[..pos], c, d, t.ts[pos + 1..]);
    }
    assert Bag(t) == rest + Bag(t.ts[pos]) by { ReplacedSame(t, pos); ReplacedBag(t, pos, t.ts[pos]); }
    GrownLift(n0, n1, Bag(t.ts[pos]), Bag(c) + Bag(d), rest);
  }

  /** All children of the widened node are encoded, by blocks other than the node's own. */
  lemma WidenedKids(n0: Blocks, n1: Blocks, t: Shape, pos: nat, c: Shape, up: NodeKey, d: Shape)
    requires BlockSplit(n0, n1, t, pos, c, d)
    ensures Kids(n1, Widened(t, pos, c, up, d).ts)
    ensures t.at !in Bags(Widened(t, pos, c, up, d).ts)
    ensures t.at in n1 && n1[t.at] == n0[t.at]
  {
    var tl, tr := t.ts[..pos], t.ts[pos + 1..];
    ReplacedSame(t, pos);
    SiblingsGrown(n0, n1, t.at, t.ks, tl, t.ts[pos], tr, Bag(c) + Bag(d));
    assert Kids(n1, [c, d]);
    KidsJoin(n1, tl, [c, d]);
    KidsJoin(n1, tl + [c, d], tr);
    BagsPair(tl, c, d, tr);
  }

  lemma WidenedRoots(t: Shape, pos: nat, c: Shape, k: NodeKey, d: Shape)
    requires t.Branch? && |t.ts| == |t.ks| + 1 && pos < |t.ts| && Root(c) == Root(t.ts[pos])
    ensures Roots(Widened(t, pos, c, k, d).ts) == Roots(t.ts)[..pos + 1] + [Root(d)] + Roots(t.ts)[pos + 1..]
  {
  }

  /** There was room for the key that came up. */
  lemma GrewShape(t: Shape, h: nat, lo: nat, pos: nat, k: NodeKey, c: Shape, up: NodeKey, d: Shape)
    requires ShapeSplit(t, h, lo, pos, k, c, up, d) && |t.ks| < TREE_NODECOUNT
    ensures Good(Widened(t, pos, c, up, d), h, lo) && Flat(Widened(t, pos, c, up, d)) == Ins(Flat(t), k)
  {
    WidenedKeys(t, h, lo, pos, k, c, up, d);
    WidenedChildren(t, h, lo, pos, k, c, up, d);
  }

  lemma GrewBlocks(n0: Blocks, n1: Blocks, n2: Blocks, t: Shape, pos: nat, c: Shape, up: NodeKey, d: Shape)
    requires BlockSplit(n0, n1, t, pos, c, d) && Root(c) == Root(t.ts[pos])
    requires Rewritten(n1, n2, t.at)
    requires n2[t.at].Ks() == t.ks[..pos] + [up] + t.ks[pos..]
    requires n2[t.at].Cs() == Roots(t.ts)[..pos + 1] + [Root(d)] + Roots(t.ts)[pos + 1..]
    ensures Encoded(n2, Widened(t, pos, c, up, d)) && Grown(n0, n2, Bag(t), Bag(Widened(t, pos, c, up, d)))
  {
    var u := Widened(t, pos, c, up, d);
    WidenedKids(n0, n1, t, pos, c, up, d);
    WidenedRoots(t, pos, c, up, d);
    WidenedGrown(n0, n1, t, pos, c, up, d);
    NodeOf(n0, t);
    assert t.at in Bag(t) && u.at == t.at && |u.ts| == |u.ks| + 1;
    assert Holds(n2, t.at, u.ks, Roots(u.ts));
    hide Encoded;
    hide Kids;
    hide Bag;
    hide Bags;
    hide Roots;
    hide Widened;
    KidsKept(n1, n2, u.ts, {t.at});
    AsNode(n2, u);
    GrownThenWritten(n0, n1, n2, Bag(t), Bag(u), t.at);
  }

  lemma GrownThenWritten(n0: Blocks, n1: Blocks, n2: Blocks, b0: multiset<Ref>, b1: multiset<Ref>, at: Ref)
    requires Grown(n0, n1, b0, b1) && at in b0 && Rewritten(n1, n2, at)
    ensures Grown(n0, n2, b0, b1)
  {
  }

  lemma HalvesKeep(u: Shape, r: Ref)
    requires u.Branch? && |u.ks| == TREE_NODECOUNT + 1 && |u.ts| == TREE_NODECOUNT + 2
    ensures Flat(LowHalf(u)) + [u.ks[TREE_NODEMIN]] + Flat(HighHalf(u, r)) == Flat(u)
    ensures Bag(LowHalf(u)) + Bag(HighHalf(u, r)) == Bag(u) + multiset{r}
  {
    WeaveSplit(u.ks, u.ts, TREE_NODEMIN);
    BagsJoin(u.ts[..TREE_NODEMIN + 1], u.ts[TREE_NODEMIN + 1..]);
    assert u.ts == u.ts[..TREE_NODEMIN + 1] + u.ts[TREE_NODEMIN + 1..];
  }

  lemma HalvesEncoded(n: Blocks, u: Shape, r: Ref)
    requires u.Branch? && |u.ks| == TREE_NODECOUNT + 1 && |u.ts| == TREE_NODECOUNT + 2 && Kids(n, u.ts)
    requires u.at in n && u.at != EMPTY && n[u.at].Sized() && r in n && r != EMPTY && n[r].Sized()
    requires n[u.at].Ks() == u.ks[..TREE_NODEMIN] && n[r].Ks() == u.ks[TREE_NODEMIN + 1..]
    requires n[u.at].Cs() == Roots(u.ts)[..TREE_NODEMIN + 1] && n[r].Cs() == Roots(u.ts)[TREE_NODEMIN + 1..]
    ensures Encoded(n, LowHalf(u)) && Encoded(n, HighHalf(u, r))
  {
    assert u.ts == u.ts[..TREE_NODEMIN + 1] + u.ts[TREE_NODEMIN + 1..];
    KidsJoin(n, u.ts[..TREE_NODEMIN + 1], u.ts[TREE_NODEMIN + 1..]);
    assert Roots(u.ts)[..TREE_NODEMIN + 1] == Roots(LowHalf(u).ts);
    assert Roots(u.ts)[TREE_NODEMIN + 1..] == Roots(HighHalf(u, r).ts);
  }

  lemma GrownByOne(n0: Blocks, n1: Blocks, n2: Blocks, b0: multiset<Ref>, b1: multiset<Ref>, at: Ref, r: Ref)
    requires Grown(n0, n1, b0, b1) && at in b0 && at in n1 && at in n2 && r !in n1 && r in n2
    requires n2 == n1[at := n2[at]][r := n2[r]]
    ensures Grown(n0, n2, b0, b1 + multiset{r})
  {
  }

  /** The node was full and splits in turn, into itself and the fresh block `r`. */
  lemma SplitShape(t: Shape, h: nat, lo: nat, pos: nat, k: NodeKey, c: Shape, up: NodeKey, d: Shape, r: Ref)
    requires ShapeSplit(t, h, lo, pos, k, c, up, d) && |t.ks| == TREE_NODECOUNT
    ensures var u := Widened(t, pos, c, up, d);
      |u.ks| == TREE_NODECOUNT + 1 && |u.ts| == TREE_NODECOUNT + 2
      && Good(LowHalf(u), h, TREE_NODEMIN) && Good(HighHalf(u, r), h, TREE_NODEMIN)
      && Flat(LowHalf(u)) + [u.ks[TREE_NODEMIN]] + Flat(HighHalf(u, r)) == Ins(Flat(t), k)
  {
    var u := Widened(t, pos, c, up, d);
    WidenedKeys(t, h, lo, pos, k, c, up, d);
    WidenedChildren(t, h, lo, pos, k, c, up, d);
    HalvesKeep(u, r);
  }

  lemma SplitBlocks(n0: Blocks, n1: Blocks, n2: Blocks, t: Shape, pos: nat, c: Shape, up: NodeKey, d: Shape, r: Ref)
    requires BlockSplit(n0, n1, t, pos, c, d) && |t.ks| == TREE_NODECOUNT && Root(c) == Root(t.ts[pos])
    requires SplitOff(n1, n2, t.at, r)
    requires
      var ks := t.ks[..pos] + [up] + t.ks[pos..];
      var cs := Roots(t.ts)[..pos + 1] + [Root(d)] + Roots(t.ts)[pos + 1..];
      n2[t.at].Ks() == ks[..TREE_NODEMIN] && n2[r].Ks() == ks[TREE_NODEMIN + 1..]
      && n2[t.at].Cs() == cs[..TREE_NODEMIN + 1] && n2[r].Cs() == cs[TREE_NODEMIN + 1..]
    ensures var u := Widened(t, pos, c, up, d);
      |u.ks| == TREE_NODECOUNT + 1 && |u.ts| == TREE_NODECOUNT + 2
      && Encoded(n2, LowHalf(u)) && Encoded(n2, HighHalf(u, r))
      && Grown(n0, n2, Bag(t), Bag(LowHalf(u)) + Bag(HighHalf(u, r)))
  {
    var u := Widened(t, pos, c, up, d);
    WidenedKids(n0, n1, t, pos, c, up, d);
    BagsAllocated(n1, u.ts);
    KidsKept(n1, n2, u.ts, {t.at, r});
    WidenedRoots(t, pos, c, up, d);
    HalvesEncoded(n2, u, r);
    HalvesKeep(u, r);
    WidenedGrown(n0, n1, t, pos, c, up, d);
    GrownByOne(n0, n1, n2, Bag(t), Bag(u), t.at, r);
  }

  lemma BurstParts(n0: Blocks, n1: Blocks, t: Shape, h: nat, lo: nat, pos: nat, k: NodeKey, c: Shape, up: NodeKey,
                   d: Shape)
    requires Entering(n0, t, h, lo, pos, k) && Burst(n0, n1, t.ts[pos], h - 1, k, c, up, d)
    ensures ShapeSplit(t, h, lo, pos, k, c, up, d) && BlockSplit(n0, n1, t, pos, c, d)
    ensures k !in Flat(t)
  {
    InsGoesIntoChild(t, pos, k);
  }

  /** The node above the split child is still as it was. */
  lemma HolderKept(n0: Blocks, n1: Blocks, t: Shape, h: nat, lo: nat, pos: nat, k: NodeKey, c: Shape, up: NodeKey,
                   d: Shape)
    requires Entering(n0, t, h, lo, pos, k) && Burst(n0, n1, t.ts[pos], h - 1, k, c, up, d)
    ensures t.Branch? && Holds(n1, t.at, t.ks, Roots(t.ts)) && pos <= |t.ks| == n1[t.at].count
  {
    BurstParts(n0, n1, t, h, lo, pos, k, c, up, d);
    WidenedKids(n0, n1, t, pos, c, up, d);
  }

  lemma GrewInPlace(n0: Blocks, n1: Blocks, n2: Blocks, t: Shape, h: nat, lo: nat, pos: nat, k: NodeKey, c: Shape,
                    up: NodeKey, d: Shape) returns (t1: Shape)
    requires Entering(n0, t, h, lo, pos, k) && Burst(n0, n1, t.ts[pos], h - 1, k, c, up, d)
    requires |t.ks| < TREE_NODECOUNT && Rewritten(n1, n2, t.at)
    requires n2[t.at].Ks() == t.ks[..pos] + [up] + t.ks[pos..]
    requires n2[t.at].Cs() == Roots(t.ts)[..pos + 1] + [Root(d)] + Roots(t.ts)[pos + 1..]
    ensures Inserted(n0, n2, t, h, lo, k, t1) && t1 == Widened(t, pos, c, up, d)
  {
    t1 := Widened(t, pos, c, up, d);
    BurstParts(n0, n1, t, h, lo, pos, k, c, up, d);
    GrewShape(t, h, lo, pos, k, c, up, d);
    GrewBlocks(n0, n1, n2, t, pos, c, up, d);
  }

  lemma SplitAgain(n0: Blocks, n1: Blocks, n2: Blocks, t: Shape, h: nat, lo: nat, pos: nat, k: NodeKey, c: Shape,
                   up: NodeKey, d: Shape, r: Ref) returns (t1: Shape, t2: Shape)
    requires Entering(n0, t, h, lo, pos, k) && Burst(n0, n1, t.ts[pos], h - 1, k, c, up, d)
    requires |t.ks| == TREE_NODECOUNT && SplitOff(n1, n2, t.at, r)
    requires
      var ks := t.ks[..pos] + [up] + t.ks[pos..];
      var cs := Roots(t.ts)[..pos + 1] + [Root(d)] + Roots(t.ts)[pos + 1..];
      n2[t.at].Ks() == ks[..TREE_NODEMIN] && n2[r].Ks() == ks[TREE_NODEMIN + 1..]
      && n2[t.at].Cs() == cs[..TREE_NODEMIN + 1] && n2[r].Cs() == cs[TREE_NODEMIN + 1..]
    ensures Burst(n0, n2, t, h, k, t1, (t.ks[..pos] + [up] + t.ks[pos..])[TREE_NODEMIN], t2) && Root(t2) == r
    ensures var w := Widened(t, pos, c, up, d);
      |w.ks| == TREE_NODECOUNT + 1 && |w.ts| == TREE_NODECOUNT + 2 && t1 == LowHalf(w) && t2 == HighHalf(w, r)
  {
    var u := Widened(t, pos, c, up, d);
    t1, t2 := LowHalf(u), HighHalf(u, r);
    BurstParts(n0, n1, t, h, lo, pos, k, c, up, d);
    SplitShape(t, h, lo, pos, k, c, up, d, r);
    SplitBlocks(n0, n1, n2, t, pos, c, up, d, r);
  }

  // ---- the whole tree ----

  lemma OwnedIsSole(n: Blocks, t: Shape)
    requires Bag(t) == multiset(n.Keys)
    ensures Sole(Bag(t))
  {
  }

  lemma GrownOwned(n0: Blocks, n1: Blocks, t: Shape, t1: Shape)
    requires Bag(t) == multiset(n0.Keys) && Grown(n0, n1, Bag(t), Bag(t1))
    ensures Bag(t1) == multiset(n1.Keys)
  {
  }

  lemma TwoUnderKeys(r: Ref, t1: Shape, up: NodeKey, t2: Shape)
    ensures Flat(TwoUnder(r, t1, up, t2)) == Flat(t1) + [up] + Flat(t2)
    ensures Bag(TwoUnder(r, t1, up, t2)) == multiset{r} + (Bag(t1) + Bag(t2))
    ensures Roots([t1, t2]) == [Root(t1), Root(t2)]
  {
    var ts := [t1, t2];
    assert ts[1..] == [t2] && [up][1..] == [];
    BagsOne(t2);
    assert Weave([], [t2]) == Flat(t2);
  }

  lemma NewRootEncoded(n1: Blocks, n2: Blocks, t1: Shape, up: NodeKey, t2: Shape, r: Ref)
    requires Encoded(n1, t1) && Encoded(n1, t2)
    requires r !in n1 && r != EMPTY && r in n2 && n2 == n1[r := n2[r]] && n2[r].Sized()
    requires n2[r].Ks() == [up] && n2[r].Cs() == [Root(t1), Root(t2)]
    ensures Encoded(n2, TwoUnder(r, t1, up, t2))
  {
    TwoUnderKeys(r, t1, up, t2);
    hide Encoded;
    hide Kids;
    hide Bag;
    hide Flat;
    hide Roots;
    BagAllocated(n1, t1);
    BagAllocated(n1, t2);
    EncodedFrame(n1, n2, t1);
    EncodedFrame(n1, n2, t2);
    var u := TwoUnder(r, t1, up, t2);
    assert Kids(n2, u.ts) by {
      KidsFirst(n2, [t1, t2]);
      KidsOne(n2, t2);
      assert [t1, t2][1..] == [t2];
    }
    AsNode(n2, u);
  }

  lemma OwnedPlusOne(n0: Blocks, n1: Blocks, n2: Blocks, b0: multiset<Ref>, b1: multiset<Ref>, r: Ref)
    requires b0 == multiset(n0.Keys) && Grown(n0, n1, b0, b1) && r !in n1 && r in n2 && n2 == n1[r := n2[r]]
    ensures multiset{r} + b1 == multiset(n2.Keys)
  {
  }

  /** The root split: a new root with one key goes on top. */
  lemma NewRoot(n0: Blocks, n1: Blocks, n2: Blocks, t: Shape, h: nat, k: NodeKey, t1: Shape, up: NodeKey, t2: Shape,
                r: Ref)
    requires Bag(t) == multiset(n0.Keys) && Burst(n0, n1, t, h, k, t1, up, t2)
    requires r !in n1 && r != EMPTY && r in n2 && n2 == n1[r := n2[r]] && n2[r].Sized()
    requires n2[r].Ks() == [up] && n2[r].Cs() == [Root(t1), Root(t2)]
    ensures var u := TwoUnder(r, t1, up, t2);
      Encoded(n2, u) && Good(u, h + 1, 1) && Flat(u) == Ins(Flat(t), k) && Bag(u) == multiset(n2.Keys)
  {
    TwoUnderKeys(r, t1, up, t2);
    hide Encoded;
    hide Flat;
    hide Bag;
    NewRootEncoded(n1, n2, t1, up, t2, r);
    OwnedPlusOne(n0, n1, n2, Bag(t), Bag(t1) + Bag(t2), r);
  }
}
