/** Why the steps of a removal keep the tree: the successor that takes the place of an
    inner key, a key borrowed from either neighbour, and the merge of two neighbours. */
module TreeRemoval {
  import opened NodeKeys
  import opened Shapes
  import opened ShapeInsertion
  import opened ShapeRemoval
  import opened TreeNodes
  import opened TreeInsertion

  /** The tree `t1` is `t` without `k`, under the same link. */
  ghost predicate Removed(n0: Blocks, n1: Blocks, t: Shape, k: NodeKey, t1: Shape) {
    Encoded(n1, t1) && Root(t1) == Root(t) && Shrunk(n0, n1, Bag(t), Bag(t1))
    && Flat(t1) == Del(Flat(t), k)
    && (k !in Flat(t) ==> t1 == t && n1 == n0)
  }

  lemma NilRemoved(n: Blocks, k: NodeKey, lo: nat)
    ensures Removed(n, n, Nil, k, Nil) && Occupied(Nil, 0, lo, false) && k !in Flat(Nil)
  {
  }

  /** What `undersize` says of the top node of a subtree after a removal below or in it. */
  ghost predicate Occupied(t: Shape, h: nat, lo: nat, undersize: bool) {
    if undersize then lo > 0 && t.Branch? && |t.ks| < TREE_NODEMIN && Good(t, h, lo - 1) else Good(t, h, lo)
  }

  /** Child `pos` is one key short, everything else is in order. */
  ghost predicate OneShort(t: Shape, h: nat, lo: nat, pos: nat) {
    t.Branch? && h > 0 && lo <= |t.ks| <= TREE_NODECOUNT && 1 <= |t.ks| && |t.ts| == |t.ks| + 1 && pos < |t.ts|
    && (forall i :: 0 <= i < |t.ts| && i != pos ==> Good(t.ts[i], h - 1, TREE_NODEMIN))
    && Occupied(t.ts[pos], h - 1, TREE_NODEMIN, true)
  }

  // ---- one child changed ----

  lemma SiblingsShrunk(n0: Blocks, n1: Blocks, at: Ref, ks: seq<NodeKey>, tl: seq<Shape>, c: Shape, tr: seq<Shape>,
                       b1: multiset<Ref>)
    requires Encoded(n0, Branch(at, ks, tl + [c] + tr)) && Sole(Bag(Branch(at, ks, tl + [c] + tr)))
    requires Shrunk(n0, n1, Bag(c), b1)
    ensures at in n1 && n1[at] == n0[at]
    ensures Kids(n1, tl) && Kids(n1, tr)
    ensures at !in b1 && at !in Bags(tl) && at !in Bags(tr)
  {
    hide Encoded;
    hide Kids;
    hide Bag;
    hide Bags;
    hide Sole;
    SiblingsApart(n0, at, ks, tl, c, tr);
    KidsFrame(n0, n1, tl);
    KidsFrame(n0, n1, tr);
  }

  lemma ReplacedShrunk(n0: Blocks, n1: Blocks, t: Shape, pos: nat, c: Shape)
    requires t.Branch? && pos < |t.ts| && Shrunk(n0, n1, Bag(t.ts[pos]), Bag(c))
    ensures Shrunk(n0, n1, Bag(t), Bag(Replaced(t, pos, c)))
  {
    var rest := multiset{t.at} + Bags(t.ts[..pos]) + Bags(t.ts[pos + 1..]);
    assert Bag(t) == rest + Bag(t.ts[pos]) by { ReplacedSame(t, pos); ReplacedBag(t, pos, t.ts[pos]); }
    assert Bag(Replaced(t, pos, c)) == rest + Bag(c) by { ReplacedBag(t, pos, c); }
  }

  lemma ReplacedEncodedBelow(n0: Blocks, n1: Blocks, t: Shape, pos: nat, c: Shape)
    requires t.Branch? && pos < |t.ts| && Encoded(n0, t) && Sole(Bag(t))
    requires Shrunk(n0, n1, Bag(t.ts[pos]), Bag(c)) && Encoded(n1, c) && Root(c) == Root(t.ts[pos])
    ensures Encoded(n1, Replaced(t, pos, c))
  {
    var tl, tr := t.ts[..pos], t.ts[pos + 1..];
    ReplacedSame(t, pos);
    SiblingsShrunk(n0, n1, t.at, t.ks, tl, t.ts[pos], tr, Bag(c));
    assert Kids(n1, [c]);
    KidsJoin(n1, tl, [c]);
    KidsJoin(n1, tl + [c], tr);
    ReplacedRoots(t, pos, c);
  }

  lemma DelGoesIntoChild(t: Shape, pos: nat, k: NodeKey)
    requires Heads(t, pos, k)
    ensures Del(Flat(t), k) ==
      Lead(t.ks[..pos], t.ts[..pos]) + Del(Flat(t.ts[pos]), k) + Trail(t.ks[pos..], t.ts[pos + 1..])
  {
    var kl, kr, tl, c, tr := t.ks[..pos], t.ks[pos..], t.ts[..pos], t.ts[pos], t.ts[pos + 1..];
    Parts(t, pos);
    Locate(kl, tl, c, kr, tr, k);
    WeaveAround(kl, tl, c, kr, tr);
    DelInMiddle(Lead(kl, tl), Flat(c), Trail(kr, tr), k);
  }

  /** The removal went into child `pos`. */
  lemma GaveUp(n0: Blocks, n1: Blocks, t: Shape, h: nat, lo: nat, pos: nat, k: NodeKey, c: Shape)
    requires Entering(n0, t, h, lo, pos, k)
    requires Removed(n0, n1, t.ts[pos], k, c)
    ensures Removed(n0, n1, t, k, Replaced(t, pos, c))
  {
    DelGoesIntoChild(t, pos, k);
    InsGoesIntoChild(t, pos, k);
    if k !in Flat(t) {
      ReplacedSame(t, pos);
    }
    ReplacedKeys(t, pos, c);
    ReplacedEncodedBelow(n0, n1, t, pos, c);
    ReplacedShrunk(n0, n1, t, pos, c);
  }

  lemma ReplacedOccupied(t: Shape, pos: nat, c: Shape, h: nat, lo: nat, short: bool)
    requires t.Branch? && pos < |t.ts| && Good(t, h, lo) && lo > 0 && Occupied(c, h - 1, TREE_NODEMIN, short)
    ensures short ==> OneShort(Replaced(t, pos, c), h, lo, pos)
    ensures !short ==> Good(Replaced(t, pos, c), h, lo)
  {
  }

  // ---- the key is in this node ----

  lemma DelHere(t: Shape, pos: nat)
    requires t.Branch? && |t.ts| == |t.ks| + 1 && pos < |t.ks| && Sorted(Flat(t))
    ensures
      var p, q := Weave(t.ks[..pos], t.ts[..pos + 1]), Weave(t.ks[pos + 1..], t.ts[pos + 1..]);
      Flat(t) == p + [t.ks[pos]] + q && Del(Flat(t), t.ks[pos]) == p + q
  {
    WeaveSplit(t.ks, t.ts, pos);
    var p, q, k := Weave(t.ks[..pos], t.ts[..pos + 1]), Weave(t.ks[pos + 1..], t.ts[pos + 1..]), t.ks[pos];
    SortedParts(Flat(t), p, [k], q);
    CompareIsStrictOrder(k, k, k);
    DelInMiddle(p, [k], q, k);
    assert p + [] + q == p + q;
  }

  /** Taking the smallest key of the child behind key `pos` into its place removes key `pos`. */
  lemma SuccessorTakesOver(t: Shape, pos: nat, c: Shape)
    requires t.Branch? && |t.ts| == |t.ks| + 1 && pos < |t.ks| && Sorted(Flat(t))
    requires Flat(t.ts[pos + 1]) != [] && Flat(c) == Del(Flat(t.ts[pos + 1]), Flat(t.ts[pos + 1])[0])
    ensures var s := Flat(t.ts[pos + 1])[0];
      Flat(Replaced(Rekeyed(t, pos, s), pos + 1, c)) == Del(Flat(t), t.ks[pos])
  {
    var f := Flat(t.ts[pos + 1]);
    var s := f[0];
    var p, rest := Weave(t.ks[..pos], t.ts[..pos + 1]), Trail(t.ks[pos + 1..], t.ts[pos + 2..]);
    assert Del(Flat(t), t.ks[pos]) == p + (f + rest) by {
      DelHere(t, pos);
      WeaveTrail(t.ks[pos + 1..], t.ts[pos + 1], t.ts[pos + 2..]);
      assert t.ts[pos + 1..] == [t.ts[pos + 1]] + t.ts[pos + 2..];
    }
    assert Flat(Replaced(Rekeyed(t, pos, s), pos + 1, c)) == p + [s] + (Flat(c) + rest) by {
      RekeyedSplit(t, pos, s, c);
      WeaveTrail(t.ks[pos + 1..], c, t.ts[pos + 2..]);
    }
    assert f == [s] + Flat(c);
    hide Flat;
    hide Weave;
    hide Trail;
    hide Del;
    Regrouped(p, [s], Flat(c), rest);
  }

  lemma Regrouped<T>(p: seq<T>, a: seq<T>, b: seq<T>, q: seq<T>)
    ensures p + a + (b + q) == p + ((a + b) + q)
  {
  }

  lemma RekeyedSplit(t: Shape, pos: nat, s: NodeKey, c: Shape)
    requires t.Branch? && |t.ts| == |t.ks| + 1 && pos < |t.ks|
    ensures Flat(Replaced(Rekeyed(t, pos, s), pos + 1, c))
         == Weave(t.ks[..pos], t.ts[..pos + 1]) + [s] + Weave(t.ks[pos + 1..], [c] + t.ts[pos + 2..])
  {
    var u := Rekeyed(t, pos, s);
    ReplacedSplit(u, pos, c);
    assert u.ks[..pos] == t.ks[..pos] && u.ks[pos + 1..] == t.ks[pos + 1..];
  }

  lemma ReplacedSplit(u: Shape, pos: nat, c: Shape)
    requires u.Branch? && |u.ts| == |u.ks| + 1 && pos < |u.ks|
    ensures Flat(Replaced(u, pos + 1, c))
         == Weave(u.ks[..pos], u.ts[..pos + 1]) + [u.ks[pos]] + Weave(u.ks[pos + 1..], [c] + u.ts[pos + 2..])
  {
    var kl, tl, kr, tr := u.ks[..pos], u.ts[..pos + 1], u.ks[pos + 1..], [c] + u.ts[pos + 2..];
    assert u.ks == kl + [u.ks[pos]] + kr;
    assert Replaced(u, pos + 1, c).ts == tl + tr;
    WeaveJoin(kl, tl, u.ks[pos], kr, tr);
  }

  lemma RekeyedBlocks(n0: Blocks, n1: Blocks, t: Shape, pos: nat, s: NodeKey)
    requires t.Branch? && pos < |t.ks| && Encoded(n0, t) && Sole(Bag(t)) && Rewritten(n0, n1, t.at)
    requires n1[t.at].Ks() == t.ks[pos := s] && n1[t.at].Cs() == n0[t.at].Cs()
    ensures Encoded(n1, Rekeyed(t, pos, s)) && Bag(Rekeyed(t, pos, s)) == Bag(t)
  {
    assert Bag(t)[t.at] <= 1;
    KidsKept(n0, n1, t.ts, {t.at});
  }

  lemma ShrunkAfterRewrite(n0: Blocks, n1: Blocks, n2: Blocks, at: Ref, b0: multiset<Ref>, b1: multiset<Ref>)
    requires Rewritten(n0, n1, at) && at in b0 && Shrunk(n1, n2, b0, b1)
    ensures Shrunk(n0, n2, b0, b1)
  {
  }

  /** Key `pos` was overwritten by its successor, and that one removed from the child behind it. */
  lemma Promoted(n0: Blocks, n1: Blocks, n2: Blocks, t: Shape, h: nat, lo: nat, pos: nat, s: NodeKey, c: Shape)
    requires t.Branch? && |t.ts| == |t.ks| + 1 && pos < |t.ks| && Encoded(n0, t) && Sole(Bag(t)) && Sorted(Flat(t))
    requires Flat(t.ts[pos + 1]) != [] && s == Flat(t.ts[pos + 1])[0]
    requires Encoded(n1, Rekeyed(t, pos, s)) && Rewritten(n0, n1, t.at) && Removed(n1, n2, t.ts[pos + 1], s, c)
    ensures Removed(n0, n2, t, t.ks[pos], Replaced(Rekeyed(t, pos, s), pos + 1, c))
  {
    var u := Rekeyed(t, pos, s);
    assert Bag(u) == Bag(t) && t.at in Bag(t) && u.ts == t.ts && Root(u) == Root(t);
    assert u.Branch? && |u.ts| > pos + 1 && Sole(Bag(u));
    hide Encoded;
    hide Bag;
    hide Flat;
    hide Del;
    hide Rekeyed;
    SuccessorTakesOver(t, pos, c);
    ReplacedEncodedBelow(n1, n2, u, pos + 1, c);
    ReplacedShrunk(n1, n2, u, pos + 1, c);
    ShrunkAfterRewrite(n0, n1, n2, t.at, Bag(t), Bag(Replaced(u, pos + 1, c)));
    KeyHere(t, pos);
  }

  // ---- two neighbouring children ----

  lemma PairedSame(t: Shape, i: nat)
    requires t.Branch? && |t.ts| == |t.ks| + 1 && i < |t.ks|
    ensures Paired(t, i, t.ts[i], t.ks[i], t.ts[i + 1]) == t
  {
    assert t.ts == t.ts[..i] + [t.ts[i], t.ts[i + 1]] + t.ts[i + 2..];
  }

  lemma PairedKeys(t: Shape, i: nat, l: Shape, k: NodeKey, r: Shape)
    requires t.Branch? && |t.ts| == |t.ks| + 1 && i < |t.ks|
    ensures Flat(Paired(t, i, l, k, r)) ==
      Lead(t.ks[..i], t.ts[..i]) + (Flat(l) + [k] + Flat(r)) + Trail(t.ks[i + 1..], t.ts[i + 2..])
    ensures Bag(Paired(t, i, l, k, r)) == multiset{t.at} + Bags(t.ts[..i]) + Bags(t.ts[i + 2..]) + (Bag(l) + Bag(r))
  {
    WeavePair(t.ks[..i], t.ts[..i], l, k, r, t.ks[i + 1..], t.ts[i + 2..]);
    BagsPair(t.ts[..i], l, r, t.ts[i + 2..]);
  }

  lemma FusedKeys(t: Shape, i: nat, c: Shape)
    requires t.Branch? && |t.ts| == |t.ks| + 1 && i < |t.ks|
    ensures Flat(Fused(t, i, c)) == Lead(t.ks[..i], t.ts[..i]) + Flat(c) + Trail(t.ks[i + 1..], t.ts[i + 2..])
    ensures Bag(Fused(t, i, c)) == multiset{t.at} + Bags(t.ts[..i]) + Bags(t.ts[i + 2..]) + Bag(c)
  {
    WeaveAround(t.ks[..i], t.ts[..i], c, t.ks[i + 1..], t.ts[i + 2..]);
    BagsAround(t.ts[..i], c, t.ts[i + 2..]);
  }

  lemma RotateRightKeeps(l: Shape, k: NodeKey, r: Shape)
    requires l.Branch? && r.Branch? && |l.ks| > 0 && |l.ts| == |l.ks| + 1
    ensures Flat(RightLeft(l)) + [l.ks[|l.ks| - 1]] + Flat(RightRight(l, k, r)) == Flat(l) + [k] + Flat(r)
    ensures Bag(RightLeft(l)) + Bag(RightRight(l, k, r)) == Bag(l) + Bag(r)
  {
    RotateRightKeys(l, k, r);
    RotateRightBags(l, k, r);
  }

  lemma RotateRightBags(l: Shape, k: NodeKey, r: Shape)
    requires l.Branch? && r.Branch? && |l.ks| > 0 && |l.ts| == |l.ks| + 1
    ensures Bag(RightLeft(l)) + Bag(RightRight(l, k, r)) == Bag(l) + Bag(r)
  {
    var m := |l.ks|;
    assert ([l.ts[m]] + r.ts)[1..] == r.ts;
    BagsJoin(l.ts[..m], [l.ts[m]]);
    assert l.ts == l.ts[..m] + [l.ts[m]];
    BagsOne(l.ts[m]);
  }

  lemma RotateLeftKeeps(l: Shape, k: NodeKey, r: Shape)
    requires l.Branch? && r.Branch? && |l.ts| == |l.ks| + 1 && |r.ks| > 0 && |r.ts| == |r.ks| + 1
    ensures Flat(LeftLeft(l, k, r)) + [r.ks[0]] + Flat(LeftRight(r)) == Flat(l) + [k] + Flat(r)
    ensures Bag(LeftLeft(l, k, r)) + Bag(LeftRight(r)) == Bag(l) + Bag(r)
  {
    RotateLeftKeys(l, k, r);
    BagsJoin(l.ts, [r.ts[0]]);
    BagsOne(r.ts[0]);
  }

  lemma MergeKeeps(l: Shape, k: NodeKey, r: Shape)
    requires l.Branch? && r.Branch? && |l.ts| == |l.ks| + 1 && |r.ts| == |r.ks| + 1
    ensures Flat(Merged(l, k, r)) == Flat(l) + [k] + Flat(r)
    ensures Bag(Merged(l, k, r)) + multiset{r.at} == Bag(l) + Bag(r)
  {
    MergeKeys(l, k, r);
    BagsJoin(l.ts, r.ts);
  }

  // ---- their blocks ----

  /** Two neighbouring inner nodes and their parent. */
  ghost predicate Neighbours(n: Blocks, t: Shape, i: nat) {
    t.Branch? && |t.ts| == |t.ks| + 1 && i < |t.ks| && Encoded(n, t) && Sole(Bag(t))
    && t.ts[i].Branch? && t.ts[i + 1].Branch?
  }

  /** At most the parent and its two children `i` and `i + 1` were written. */
  ghost predicate OnlyThree(n1: Blocks, n2: Blocks, t: Shape, i: nat)
    requires Neighbours(n1, t, i)
  {
    forall r :: r in n1 && r != t.at && r != t.ts[i].at && r != t.ts[i + 1].at ==> r in n2 && n2[r] == n1[r]
  }

  lemma ThreeBlocks(n: Blocks, t: Shape, i: nat)
    requires Neighbours(n, t, i)
    ensures t.at != t.ts[i].at && t.at != t.ts[i + 1].at && t.ts[i].at != t.ts[i + 1].at
    ensures Bag(t) == multiset{t.at} + Bags(t.ts[..i]) + Bags(t.ts[i + 2..]) + (Bag(t.ts[i]) + Bag(t.ts[i + 1]))
    ensures Encoded(n, t.ts[i]) && Encoded(n, t.ts[i + 1]) && Kids(n, t.ts[..i]) && Kids(n, t.ts[i + 2..])
  {
    var l, r := t.ts[i], t.ts[i + 1];
    assert Kids(n, t.ts);
    PairedSame(t, i);
    PairedKeys(t, i, l, t.ks[i], r);
    assert Bag(t)[t.at] <= 1 && Bag(t)[l.at] <= 1;
  }

  /** The links and keys through which a node reaches two neighbouring children. */
  lemma LinksOf(n: Blocks, t: Shape, i: nat)
    requires Neighbours(n, t, i)
    ensures Holds(n, t.at, t.ks, Roots(t.ts)) && n[t.at].keys[i] == t.ks[i]
    ensures t.at != t.ts[i].at && t.at != t.ts[i + 1].at && t.ts[i].at != t.ts[i + 1].at
    ensures n[t.at].childsi[i] == t.ts[i].at && n[t.at].childsi[i + 1] == t.ts[i + 1].at
    ensures Holds(n, t.ts[i].at, t.ts[i].ks, Roots(t.ts[i].ts))
    ensures Holds(n, t.ts[i + 1].at, t.ts[i + 1].ks, Roots(t.ts[i + 1].ts))
  {
    ThreeBlocks(n, t, i);
    assert n[t.at].Cs()[i] == Roots(t.ts)[i] && n[t.at].Cs()[i + 1] == Roots(t.ts)[i + 1];
    assert n[t.at].Ks()[i] == t.ks[i];
  }

  lemma NotOfThree(n: Blocks, t: Shape, i: nat, b: multiset<Ref>)
    requires Neighbours(n, t, i)
    requires b <= Bags(t.ts[..i]) || b <= Bags(t.ts[i + 2..]) || b <= Bags(t.ts[i].ts) || b <= Bags(t.ts[i + 1].ts)
    ensures t.at !in b && t.ts[i].at !in b && t.ts[i + 1].at !in b
  {
    ThreeBlocks(n, t, i);
    assert Bag(t)[t.at] <= 1 && Bag(t)[t.ts[i].at] <= 1 && Bag(t)[t.ts[i + 1].at] <= 1;
  }

  lemma PartKept(n1: Blocks, n2: Blocks, t: Shape, i: nat, us: seq<Shape>)
    requires Neighbours(n1, t, i) && OnlyThree(n1, n2, t, i) && Kids(n1, us)
    requires us == t.ts[..i] || us == t.ts[i + 2..] || us == t.ts[i].ts || us == t.ts[i + 1].ts
    ensures Kids(n2, us)
  {
    NotOfThree(n1, t, i, Bags(us));
    KidsKept(n1, n2, us, {t.at, t.ts[i].at, t.ts[i + 1].at});
  }

  /** The other children, and the children of the two neighbours, keep their blocks. */
  lemma OthersKept(n1: Blocks, n2: Blocks, t: Shape, i: nat)
    requires Neighbours(n1, t, i) && OnlyThree(n1, n2, t, i)
    ensures Kids(n2, t.ts[..i]) && Kids(n2, t.ts[i + 2..])
    ensures Kids(n2, t.ts[i].ts) && Kids(n2, t.ts[i + 1].ts)
  {
    ThreeBlocks(n1, t, i);
    PartKept(n1, n2, t, i, t.ts[..i]);
    PartKept(n1, n2, t, i, t.ts[i + 2..]);
    PartKept(n1, n2, t, i, t.ts[i].ts);
    PartKept(n1, n2, t, i, t.ts[i + 1].ts);
  }

  lemma PairedEncoded(n1: Blocks, n2: Blocks, t: Shape, i: nat, l: Shape, k: NodeKey, r: Shape)
    requires Neighbours(n1, t, i) && OnlyThree(n1, n2, t, i)
    requires l.Branch? && r.Branch? && l.at == t.ts[i].at && r.at == t.ts[i + 1].at
    requires Encoded(n2, l) && Encoded(n2, r)
    requires Holds(n2, t.at, t.ks[i := k], Roots(t.ts))
    ensures Encoded(n2, Paired(t, i, l, k, r))
  {
    var u := Paired(t, i, l, k, r);
    OthersKept(n1, n2, t, i);
    NodeOf(n1, t);
    hide Encoded;
    hide Kids;
    hide Bag;
    KidsPair(n2, t.ts[..i], l, r, t.ts[i + 2..]);
    assert Roots(u.ts) == Roots(t.ts);
    assert u.ks == t.ks[i := k];
    AsNode(n2, u);
  }

  lemma FusedEncoded(n1: Blocks, n2: Blocks, t: Shape, i: nat, c: Shape)
    requires Neighbours(n1, t, i) && OnlyThree(n1, n2, t, i)
    requires Encoded(n2, c) && Root(c) == Root(t.ts[i])
    requires Holds(n2, t.at, t.ks[..i] + t.ks[i + 1..], Roots(t.ts)[..i + 1] + Roots(t.ts)[i + 2..])
    ensures Encoded(n2, Fused(t, i, c))
  {
    var u := Fused(t, i, c);
    OthersKept(n1, n2, t, i);
    NodeOf(n1, t);
    hide Encoded;
    hide Kids;
    hide Bag;
    KidsAround(n2, t.ts[..i], c, t.ts[i + 2..]);
    assert Roots(u.ts) == Roots(t.ts)[..i + 1] + Roots(t.ts)[i + 2..];
    AsNode(n2, u);
  }

  lemma NeighbourBlocks(n: Blocks, t: Shape, i: nat)
    requires Neighbours(n, t, i)
    ensures t.ts[i].at != EMPTY && |t.ts[i].ts| == |t.ts[i].ks| + 1
    ensures t.ts[i + 1].at != EMPTY && |t.ts[i + 1].ts| == |t.ts[i + 1].ks| + 1
  {
    assert Kids(n, t.ts);
    NodeOf(n, t.ts[i]);
    NodeOf(n, t.ts[i + 1]);
  }

  lemma KidsLast(n: Blocks, ts: seq<Shape>, m: nat)
    requires |ts| == m + 1
    ensures Kids(n, ts) <==> Kids(n, ts[..m]) && Encoded(n, ts[m])
  {
    assert ts == ts[..m] + [ts[m]];
    KidsJoin(n, ts[..m], [ts[m]]);
    KidsOne(n, ts[m]);
  }

  lemma KidsAhead(n: Blocks, c: Shape, ts: seq<Shape>)
    ensures Kids(n, [c] + ts) <==> Encoded(n, c) && Kids(n, ts)
  {
    KidsJoin(n, [c], ts);
    KidsOne(n, c);
  }

  lemma KidsBehind(n: Blocks, ts: seq<Shape>, c: Shape)
    ensures Kids(n, ts + [c]) <==> Kids(n, ts) && Encoded(n, c)
  {
    KidsJoin(n, ts, [c]);
    KidsOne(n, c);
  }

  // ---- the three repairs ----

  lemma RotatedRightKeeps(t: Shape, i: nat)
    requires RotatedRight.requires(t, i)
    ensures Flat(RotatedRight(t, i)) == Flat(t) && Bag(RotatedRight(t, i)) == Bag(t)
  {
    var l, r := t.ts[i], t.ts[i + 1];
    RotateRightKeeps(l, t.ks[i], r);
    PairedSame(t, i);
    PairedKeys(t, i, l, t.ks[i], r);
    PairedKeys(t, i, RightLeft(l), l.ks[|l.ks| - 1], RightRight(l, t.ks[i], r));
  }

  lemma RotatedRightEncoded(n1: Blocks, n2: Blocks, t: Shape, i: nat)
    requires RotatedRight.requires(t, i) && Neighbours(n1, t, i) && OnlyThree(n1, n2, t, i)
    requires
      var l, r, m := t.ts[i], t.ts[i + 1], |t.ts[i].ks|;
      Holds(n2, l.at, l.ks[..m - 1], Roots(l.ts)[..m])
      && Holds(n2, r.at, [t.ks[i]] + r.ks, [Roots(l.ts)[m]] + Roots(r.ts))
      && Holds(n2, t.at, t.ks[i := l.ks[m - 1]], Roots(t.ts))
    ensures Encoded(n2, RotatedRight(t, i))
  {
    var l, r := t.ts[i], t.ts[i + 1];
    var m := |l.ks|;
    OthersKept(n1, n2, t, i);
    NeighbourBlocks(n1, t, i);
    hide Encoded;
    hide Kids;
    hide Bag;
    KidsLast(n2, l.ts, m);
    assert Roots(l.ts[..m]) == Roots(l.ts)[..m];
    AsNode(n2, RightLeft(l));
    KidsAhead(n2, l.ts[m], r.ts);
    assert Roots([l.ts[m]] + r.ts) == [Roots(l.ts)[m]] + Roots(r.ts);
    AsNode(n2, RightRight(l, t.ks[i], r));
    PairedEncoded(n1, n2, t, i, RightLeft(l), l.ks[m - 1], RightRight(l, t.ks[i], r));
  }

  lemma RotatedLeftKeeps(t: Shape, i: nat)
    requires RotatedLeft.requires(t, i)
    ensures Flat(RotatedLeft(t, i)) == Flat(t) && Bag(RotatedLeft(t, i)) == Bag(t)
  {
    var l, r := t.ts[i], t.ts[i + 1];
    RotateLeftKeeps(l, t.ks[i], r);
    PairedSame(t, i);
    PairedKeys(t, i, l, t.ks[i], r);
    PairedKeys(t, i, LeftLeft(l, t.ks[i], r), r.ks[0], LeftRight(r));
  }

  lemma RotatedLeftEncoded(n1: Blocks, n2: Blocks, t: Shape, i: nat)
    requires RotatedLeft.requires(t, i) && Neighbours(n1, t, i) && OnlyThree(n1, n2, t, i)
    requires
      var l, r := t.ts[i], t.ts[i + 1];
      Holds(n2, l.at, l.ks + [t.ks[i]], Roots(l.ts) + [Roots(r.ts)[0]])
      && Holds(n2, r.at, r.ks[1..], Roots(r.ts)[1..])
      && Holds(n2, t.at, t.ks[i := r.ks[0]], Roots(t.ts))
    ensures Encoded(n2, RotatedLeft(t, i))
  {
    var l, r := t.ts[i], t.ts[i + 1];
    OthersKept(n1, n2, t, i);
    NeighbourBlocks(n1, t, i);
    hide Encoded;
    hide Kids;
    hide Bag;
    KidsFirst(n2, r.ts);
    assert Roots(r.ts[1..]) == Roots(r.ts)[1..];
    AsNode(n2, LeftRight(r));
    KidsBehind(n2, l.ts, r.ts[0]);
    assert Roots(l.ts + [r.ts[0]]) == Roots(l.ts) + [Roots(r.ts)[0]];
    AsNode(n2, LeftLeft(l, t.ks[i], r));
    PairedEncoded(n1, n2, t, i, LeftLeft(l, t.ks[i], r), r.ks[0], LeftRight(r));
  }

  lemma CombinedKeeps(t: Shape, i: nat)
    requires Combined.requires(t, i)
    requires |t.ts[i].ts| == |t.ts[i].ks| + 1 && |t.ts[i + 1].ts| == |t.ts[i + 1].ks| + 1
    ensures Flat(Combined(t, i)) == Flat(t)
    ensures Bag(Combined(t, i)) + multiset{t.ts[i + 1].at} == Bag(t)
  {
    var l, r := t.ts[i], t.ts[i + 1];
    MergeKeeps(l, t.ks[i], r);
    PairedSame(t, i);
    PairedKeys(t, i, l, t.ks[i], r);
    FusedKeys(t, i, Merged(l, t.ks[i], r));
  }

  lemma CombinedEncoded(n1: Blocks, n2: Blocks, t: Shape, i: nat)
    requires Neighbours(n1, t, i) && OnlyThree(n1, n2, t, i)
    requires
      var l, r := t.ts[i], t.ts[i + 1];
      Holds(n2, l.at, l.ks + [t.ks[i]] + r.ks, Roots(l.ts) + Roots(r.ts))
      && Holds(n2, t.at, t.ks[..i] + t.ks[i + 1..], Roots(t.ts)[..i + 1] + Roots(t.ts)[i + 2..])
    ensures Encoded(n2, Combined(t, i))
  {
    var l, r := t.ts[i], t.ts[i + 1];
    OthersKept(n1, n2, t, i);
    NeighbourBlocks(n1, t, i);
    hide Encoded;
    hide Kids;
    hide Bag;
    KidsJoin(n2, l.ts, r.ts);
    assert Roots(l.ts + r.ts) == Roots(l.ts) + Roots(r.ts);
    AsNode(n2, Merged(l, t.ks[i], r));
    FusedEncoded(n1, n2, t, i, Merged(l, t.ks[i], r));
  }

  /** `t1` is `t` with its short child repaired: the same keys, at most the merged block freed. */
  ghost predicate Repaired(n1: Blocks, n2: Blocks, t: Shape, h: nat, lo: nat, t1: Shape, undersize: bool) {
    Encoded(n2, t1) && Root(t1) == Root(t) && Flat(t1) == Flat(t)
    && Shrunk(n1, n2, Bag(t), Bag(t1)) && Occupied(t1, h, lo, undersize)
  }

  /** What is known when the children `i` and `i + 1` of `t` are to be balanced because child `pos` is short. */
  ghost predicate Repairable(n: Blocks, t: Shape, h: nat, lo: nat, i: nat, pos: nat) {
    Neighbours(n, t, i) && OneShort(t, h, lo, pos) && (pos == i || pos == i + 1) && 1 <= lo <= TREE_NODEMIN
  }

  lemma RightRepairs(n1: Blocks, n2: Blocks, t: Shape, h: nat, lo: nat, i: nat)
    requires Repairable(n1, t, h, lo, i, i + 1) && |t.ts[i].ks| > TREE_NODEMIN
    requires n2.Keys == n1.Keys && OnlyThree(n1, n2, t, i)
    requires
      var l, r, m := t.ts[i], t.ts[i + 1], |t.ts[i].ks|;
      Holds(n2, l.at, l.ks[..m - 1], Roots(l.ts)[..m])
      && Holds(n2, r.at, [t.ks[i]] + r.ks, [Roots(l.ts)[m]] + Roots(r.ts))
      && Holds(n2, t.at, t.ks[i := l.ks[m - 1]], Roots(t.ts))
    ensures Repaired(n1, n2, t, h, lo, RotatedRight(t, i), false)
  {
    RotatedRightKeeps(t, i);
    RotatedRightEncoded(n1, n2, t, i);
    RotatedRightGood(t, h, lo, i);
    SameBlocks(n1, n2, t, i);
  }

  lemma RotatedRightGood(t: Shape, h: nat, lo: nat, i: nat)
    requires OneShort(t, h, lo, i + 1) && t.ts[i].Branch? && |t.ts[i].ks| > TREE_NODEMIN
    ensures Good(RotatedRight(t, i), h, lo)
  {
    var l, r := t.ts[i], t.ts[i + 1];
    assert Good(l, h - 1, TREE_NODEMIN) && Good(r, h - 1, 1);
    assert Good(RightLeft(l), h - 1, TREE_NODEMIN);
    assert Good(RightRight(l, t.ks[i], r), h - 1, TREE_NODEMIN);
  }

  lemma SameBlocks(n1: Blocks, n2: Blocks, t: Shape, i: nat)
    requires Neighbours(n1, t, i) && n2.Keys == n1.Keys && OnlyThree(n1, n2, t, i)
    ensures Shrunk(n1, n2, Bag(t), Bag(t))
  {
    ThreeBlocks(n1, t, i);
  }

  lemma LeftRepairs(n1: Blocks, n2: Blocks, t: Shape, h: nat, lo: nat, i: nat)
    requires Repairable(n1, t, h, lo, i, i) && |t.ts[i + 1].ks| > TREE_NODEMIN
    requires n2.Keys == n1.Keys && OnlyThree(n1, n2, t, i)
    requires
      var l, r := t.ts[i], t.ts[i + 1];
      Holds(n2, l.at, l.ks + [t.ks[i]], Roots(l.ts) + [Roots(r.ts)[0]])
      && Holds(n2, r.at, r.ks[1..], Roots(r.ts)[1..])
      && Holds(n2, t.at, t.ks[i := r.ks[0]], Roots(t.ts))
    ensures Repaired(n1, n2, t, h, lo, RotatedLeft(t, i), false)
  {
    RotatedLeftKeeps(t, i);
    RotatedLeftEncoded(n1, n2, t, i);
    RotatedLeftGood(t, h, lo, i);
    SameBlocks(n1, n2, t, i);
  }

  lemma RotatedLeftGood(t: Shape, h: nat, lo: nat, i: nat)
    requires OneShort(t, h, lo, i) && i < |t.ks| && t.ts[i + 1].Branch? && |t.ts[i + 1].ks| > TREE_NODEMIN
    ensures Good(RotatedLeft(t, i), h, lo)
  {
    var l, r := t.ts[i], t.ts[i + 1];
    assert Good(l, h - 1, 1) && Good(r, h - 1, TREE_NODEMIN);
    assert Good(LeftLeft(l, t.ks[i], r), h - 1, TREE_NODEMIN);
    assert Good(LeftRight(r), h - 1, TREE_NODEMIN);
  }

  lemma CombineRepairs(n1: Blocks, n2: Blocks, t: Shape, h: nat, lo: nat, i: nat, pos: nat)
    requires Repairable(n1, t, h, lo, i, pos)
    requires |t.ts[i].ks| + |t.ts[i + 1].ks| < TREE_NODECOUNT
    requires n2.Keys == n1.Keys - {t.ts[i + 1].at} && OnlyThree(n1, n2, t, i)
    requires
      var l, r := t.ts[i], t.ts[i + 1];
      Holds(n2, l.at, l.ks + [t.ks[i]] + r.ks, Roots(l.ts) + Roots(r.ts))
      && Holds(n2, t.at, t.ks[..i] + t.ks[i + 1..], Roots(t.ts)[..i + 1] + Roots(t.ts)[i + 2..])
    ensures Repaired(n1, n2, t, h, lo, Combined(t, i), |t.ks| - 1 < TREE_NODEMIN)
  {
    CombinedKeeps(t, i);
    CombinedEncoded(n1, n2, t, i);
    CombinedGood(t, h, lo, i, pos);
    OneFreed(n1, n2, t, i, Bag(Combined(t, i)));
  }

  lemma OneFreed(n1: Blocks, n2: Blocks, t: Shape, i: nat, b: multiset<Ref>)
    requires Neighbours(n1, t, i) && n2.Keys == n1.Keys - {t.ts[i + 1].at} && OnlyThree(n1, n2, t, i)
    requires b + multiset{t.ts[i + 1].at} == Bag(t)
    ensures Shrunk(n1, n2, Bag(t), b)
  {
    ThreeBlocks(n1, t, i);
    BagAllocated(n1, t);
    assert t.at in Bag(t) && t.ts[i].at in Bag(t) && t.ts[i + 1].at in Bag(t);
    hide Encoded;
    hide Kids;
    hide Bag;
    hide Bags;
    FreedOne(n1, n2, Bag(t), b, t.ts[i + 1].at);
  }

  lemma FreedOne(n1: Blocks, n2: Blocks, b0: multiset<Ref>, b1: multiset<Ref>, x: Ref)
    requires b1 + multiset{x} == b0 && x in n1 && n2.Keys == n1.Keys - {x}
    requires forall r :: r in n1 && r !in b0 ==> r in n2 && n2[r] == n1[r]
    ensures Shrunk(n1, n2, b0, b1)
  {
    forall r ensures b0[r] == b1[r] + if r in n1 && r !in n2 then 1 else 0 {
      assert b0[r] == (b1 + multiset{x})[r];
    }
  }

  lemma CombinedGood(t: Shape, h: nat, lo: nat, i: nat, pos: nat)
    requires OneShort(t, h, lo, pos) && i < |t.ks| && (pos == i || pos == i + 1) && 1 <= lo <= TREE_NODEMIN
    requires t.ts[i].Branch? && t.ts[i + 1].Branch? && |t.ts[i].ks| + |t.ts[i + 1].ks| < TREE_NODECOUNT
    ensures Occupied(Combined(t, i), h, lo, |t.ks| - 1 < TREE_NODEMIN)
  {
    var l, r := t.ts[i], t.ts[i + 1];
    assert Good(l, h - 1, 1) && Good(r, h - 1, 1) && (pos == i + 1 ==> Good(l, h - 1, TREE_NODEMIN));
    assert pos == i ==> Good(r, h - 1, TREE_NODEMIN);
    assert |l.ks| + |r.ks| >= 2 + 1;
    assert Good(Merged(l, t.ks[i], r), h - 1, TREE_NODEMIN);
  }

  lemma ShortHasNeighbour(n: Blocks, t: Shape, h: nat, lo: nat, pos: nat)
    requires OneShort(t, h, lo, pos) && Encoded(n, t) && Sole(Bag(t)) && 1 <= lo <= TREE_NODEMIN
    ensures pos > 0 ==> Repairable(n, t, h, lo, pos - 1, pos) && n[t.at].childsi[pos - 1] == t.ts[pos - 1].at
    ensures pos == 0 ==> Repairable(n, t, h, lo, 0, 0) && n[t.at].childsi[1] == t.ts[1].at
    ensures pos > 0 ==> Holds(n, t.ts[pos - 1].at, t.ts[pos - 1].ks, Roots(t.ts[pos - 1].ts))
    ensures pos == 0 ==> Holds(n, t.ts[1].at, t.ts[1].ks, Roots(t.ts[1].ts))
  {
    assert Occupied(t.ts[pos], h - 1, TREE_NODEMIN, true);
    if pos > 0 {
      assert Good(t.ts[pos - 1], h - 1, TREE_NODEMIN);
      LinksOf(n, t, pos - 1);
    } else {
      assert Good(t.ts[1], h - 1, TREE_NODEMIN);
      LinksOf(n, t, 0);
    }
  }

  /** The node after the removal in its child `pos`, before that is balanced. */
  lemma LeftChild(n0: Blocks, n1: Blocks, t: Shape, h: nat, lo: nat, pos: nat, k: NodeKey, c: Shape, undersize: bool)
    requires Entering(n0, t, h, lo, pos, k) && 1 <= lo <= TREE_NODEMIN
    requires Removed(n0, n1, t.ts[pos], k, c) && Occupied(c, h - 1, TREE_NODEMIN, undersize)
    ensures t.Branch? && pos < |t.ts| && Sole(Bag(t)) && (k in Flat(t) <==> k in Flat(t.ts[pos]))
    ensures var u := Replaced(t, pos, c);
      && u.Branch? && pos < |u.ts| && Removed(n0, n1, t, k, u)
      && if undersize then OneShort(u, h, lo, pos) && k in Flat(t) else Good(u, h, lo)
  {
    GaveUp(n0, n1, t, h, lo, pos, k, c);
    InsGoesIntoChild(t, pos, k);
    ReplacedOccupied(t, pos, c, h, lo, undersize);
    if undersize {
      ShortMeansPresent(n0, n1, t.ts[pos], h - 1, k, c);
    }
    hide Encoded;
    hide Flat;
    hide Bag;
    hide Removed;
    hide Occupied;
    hide OneShort;
  }

  /** The child that is short can be balanced. */
  lemma ShortMends(t: Shape, h: nat, lo: nat, pos: nat)
    requires OneShort(t, h, lo, pos) && 1 <= lo <= TREE_NODEMIN
    ensures Short(t.ts[pos]) && Mendable(t, pos) && MendedIfShort(t, pos) == Mended(t, pos)
  {
    var i := if pos > 0 then pos - 1 else 1;
    assert Occupied(t.ts[pos], h - 1, TREE_NODEMIN, true) && Good(t.ts[i], h - 1, TREE_NODEMIN);
  }

  lemma NoneShort(t: Shape, h: nat, lo: nat, pos: nat)
    requires t.Branch? && Good(t, h, lo) && pos < |t.ts|
    ensures MendedIfShort(t, pos) == t
  {
    assert Good(t.ts[pos], h - 1, TREE_NODEMIN);
  }

  /** The first key of a tree is found by following the first links. */
  lemma {:induction false} FirstKey(t: Shape, h: nat)
    requires Good(t, h, 1) && h > 0
    ensures Flat(t) != []
    ensures t.ts[0].Branch? ==> h > 1 && Flat(t.ts[0]) != [] && Good(t.ts[0], h - 1, 1)
    ensures Flat(t)[0] == if t.ts[0].Nil? then t.ks[0] else Flat(t.ts[0])[0]
    decreases h
  {
    if t.ts[0].Branch? {
      FirstKey(t.ts[0], h - 1);
    }
  }

  lemma LeafRemoved(n0: Blocks, n1: Blocks, t: Shape, h: nat, lo: nat, pos: nat)
    requires t.Branch? && Encoded(n0, t) && Good(t, h, lo) && Sole(Bag(t)) && Sorted(Flat(t)) && pos < |t.ks|
    requires 1 <= lo <= TREE_NODEMIN
    requires t.ts[pos + 1].Nil? && Rewritten(n0, n1, t.at)
    requires n1[t.at].Ks() == t.ks[..pos] + t.ks[pos + 1..]
    requires n1[t.at].Cs() == Roots(t.ts)[..pos + 1] + Roots(t.ts)[pos + 2..]
    ensures Removed(n0, n1, t, t.ks[pos], LeafWithout(t, pos))
    ensures Occupied(LeafWithout(t, pos), h, lo, |t.ks| - 1 < TREE_NODEMIN)
  {
    LeafKeys(t, h, lo, pos);
    KeyHere(t, pos);
    assert Bag(t)[t.at] <= 1;
    KidsKept(n0, n1, t.ts, {t.at});
    LeafEncoded(n1, t, pos);
  }

  lemma LeafEncoded(n1: Blocks, t: Shape, pos: nat)
    requires t.Branch? && |t.ts| == |t.ks| + 1 && pos < |t.ks| && Kids(n1, t.ts) && t.at != EMPTY
    requires Holds(n1, t.at, t.ks[..pos] + t.ks[pos + 1..], Roots(t.ts)[..pos + 1] + Roots(t.ts)[pos + 2..])
    ensures Encoded(n1, LeafWithout(t, pos))
  {
    var u := LeafWithout(t, pos);
    assert Kids(n1, u.ts);
    assert Roots(u.ts) == Roots(t.ts)[..pos + 1] + Roots(t.ts)[pos + 2..];
  }

  lemma LeafKeys(t: Shape, h: nat, lo: nat, pos: nat)
    requires t.Branch? && Good(t, h, lo) && Sorted(Flat(t)) && pos < |t.ks|
    requires t.ts[pos + 1].Nil?
    ensures Flat(LeafWithout(t, pos)) == Del(Flat(t), t.ks[pos]) && Bag(LeafWithout(t, pos)) == Bag(t)
  {
    var p, q, k := Lead(t.ks[..pos], t.ts[..pos]), Trail(t.ks[pos + 1..], t.ts[pos + 2..]), t.ks[pos];
    assert Good(t.ts[pos], h - 1, TREE_NODEMIN) && Good(t.ts[pos + 1], h - 1, TREE_NODEMIN);
    PairedSame(t, pos);
    PairedKeys(t, pos, t.ts[pos], k, t.ts[pos + 1]);
    FusedKeys(t, pos, t.ts[pos]);
    assert Flat(t) == p + [k] + q;
    SortedParts(Flat(t), p, [k], q);
    CompareIsStrictOrder(k, k, k);
    DelInMiddle(p, [k], q, k);
  }

  lemma ShrunkTwice(n0: Blocks, n1: Blocks, n2: Blocks, b0: multiset<Ref>, b1: multiset<Ref>, b2: multiset<Ref>)
    requires Shrunk(n0, n1, b0, b1) && Shrunk(n1, n2, b1, b2)
    ensures Shrunk(n0, n2, b0, b2)
  {
    forall r | r !in b0 ensures r !in b1 {
      assert b0[r] >= b1[r];
    }
  }

  lemma ShrunkSole(n0: Blocks, n1: Blocks, b0: multiset<Ref>, b1: multiset<Ref>)
    requires Shrunk(n0, n1, b0, b1) && Sole(b0)
    ensures Sole(b1)
  {
  }

  /** A repair after the removal changes neither the keys nor what is owned. */
  lemma RemovedThenRepaired(n0: Blocks, n1: Blocks, n2: Blocks, t: Shape, k: NodeKey, u: Shape, h: nat, lo: nat,
                            t1: Shape, undersize: bool)
    requires Removed(n0, n1, t, k, u) && Repaired(n1, n2, u, h, lo, t1, undersize) && k in Flat(t)
    ensures Removed(n0, n2, t, k, t1)
  {
    ShrunkTwice(n0, n1, n2, Bag(t), Bag(u), Bag(t1));
  }

  /** A subtree that does not hold the key is not short afterwards. */
  lemma ShortMeansPresent(n0: Blocks, n1: Blocks, t: Shape, h: nat, k: NodeKey, c: Shape)
    requires Good(t, h, TREE_NODEMIN) && Removed(n0, n1, t, k, c) && Occupied(c, h, TREE_NODEMIN, true)
    ensures k in Flat(t)
  {
  }

  lemma ChildSorted(t: Shape, pos: nat)
    requires t.Branch? && |t.ts| == |t.ks| + 1 && pos < |t.ts| && Sorted(Flat(t))
    ensures Sorted(Flat(t.ts[pos]))
  {
    Parts(t, pos);
    WeaveAround(t.ks[..pos], t.ts[..pos], t.ts[pos], t.ks[pos..], t.ts[pos + 1..]);
    SortedParts(Flat(t), Lead(t.ks[..pos], t.ts[..pos]), Flat(t.ts[pos]), Trail(t.ks[pos..], t.ts[pos + 1..]));
  }

  // ---- the whole tree ----

  lemma ShrunkOwned(n0: Blocks, n1: Blocks, t: Shape, t1: Shape)
    requires Bag(t) == multiset(n0.Keys) && Shrunk(n0, n1, Bag(t), Bag(t1))
    ensures Bag(t1) == multiset(n1.Keys)
  {
  }

  /** What the removal from the root leaves, before an empty root is dropped. */
  lemma RemovedFromWhole(n0: Blocks, n1: Blocks, t: Shape, k: NodeKey, t1: Shape, h: nat, undersize: bool)
    requires Bag(t) == multiset(n0.Keys) && Sorted(Flat(t)) && Removed(n0, n1, t, k, t1)
    requires Occupied(t1, h, 1, undersize)
    requires Encoded(n0, t)
    ensures Bag(t1) == multiset(n1.Keys) && Sorted(Flat(t1)) && KeySet(Flat(t1)) == KeySet(Flat(t)) - {k}
    ensures k in Flat(t) ==> t1.Branch?
    ensures k !in Flat(t) && Good(t, h, 1) ==> Good(t1, h, 1)
  {
    ShrunkOwned(n0, n1, t, t1);
    DelSorted(Flat(t), k);
  }

  lemma OwnedMinusOne(n: Blocks, b: multiset<Ref>, r: Ref)
    requires multiset{r} + b == multiset(n.Keys)
    ensures b == multiset((n - {r}).Keys)
  {
    assert multiset(n.Keys)[r] == 1;
    forall x ensures b[x] == multiset((n - {r}).Keys)[x] {
      assert (multiset{r} + b)[x] == multiset(n.Keys)[x];
    }
  }

  /** A root without keys gives way to its only child. */
  lemma RootCollapses(n1: Blocks, t: Shape, h: nat)
    requires t.Branch? && |t.ks| == 0 && Good(t, h, 0) && Encoded(n1, t) && Bag(t) == multiset(n1.Keys)
    ensures var c := t.ts[0];
      Encoded(n1 - {t.at}, c) && Root(c) == n1[t.at].childsi[0] && Good(c, h - 1, 1)
      && Flat(c) == Flat(t) && Bag(c) == multiset((n1 - {t.at}).Keys)
  {
    var c := t.ts[0];
    assert t.ts == [c];
    BagsOne(c);
    assert Bag(t)[t.at] <= 1;
    assert Kids(n1, t.ts);
    BagAllocated(n1, c);
    EncodedFrame(n1, n1 - {t.at}, c);
    assert n1[t.at].Cs()[0] == Roots(t.ts)[0];
    GoodWeaken(c, h - 1, TREE_NODEMIN, 1);
    assert Bag(t) == multiset{t.at} + Bag(c);
    OwnedMinusOne(n1, Bag(c), t.at);
  }
}
