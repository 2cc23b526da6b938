/** What a removal makes of the shape of a tree: a function of the shape and the key alone, against which the step by
    step removal is proved, and which of its neighbours a short child is balanced with. */
module ShapeRemoval {
  import opened NodeKeys
  import opened Shapes
  import opened ShapeInsertion

  /** Key `pos` replaced by `s`. */
  ghost function Rekeyed(t: Shape, pos: nat, s: NodeKey): (r: Shape)
    requires t.Branch? && pos < |t.ks|
  {
    Branch(t.at, t.ks[pos := s], t.ts)
  }

  /** Children `i` and `i + 1` and the key between them, replaced. */
  ghost function Paired(t: Shape, i: nat, l: Shape, k: NodeKey, r: Shape): (s: Shape)
    requires t.Branch? && |t.ts| == |t.ks| + 1 && i < |t.ks|
  {
    Branch(t.at, t.ks[..i] + [k] + t.ks[i + 1..], t.ts[..i] + [l, r] + t.ts[i + 2..])
  }

  /** Children `i` and `i + 1` and the key between them, replaced by one child. */
  ghost function Fused(t: Shape, i: nat, c: Shape): (r: Shape)
    requires t.Branch? && |t.ts| == |t.ks| + 1 && i < |t.ks|
  {
    Branch(t.at, t.ks[..i] + t.ks[i + 1..], t.ts[..i] + [c] + t.ts[i + 2..])
  }

  /** Moving the last key of the left neighbour over. */
  ghost function RightLeft(l: Shape): (r: Shape)
    requires l.Branch? && |l.ks| > 0 && |l.ts| == |l.ks| + 1
  {
    Branch(l.at, l.ks[..|l.ks| - 1], l.ts[..|l.ks|])
  }

  ghost function RightRight(l: Shape, k: NodeKey, r: Shape): (s: Shape)
    requires l.Branch? && r.Branch? && |l.ks| > 0 && |l.ts| == |l.ks| + 1
  {
    Branch(r.at, [k] + r.ks, [l.ts[|l.ks|]] + r.ts)
  }

  /** Moving the first key of the right neighbour over. */
  ghost function LeftLeft(l: Shape, k: NodeKey, r: Shape): (s: Shape)
    requires l.Branch? && r.Branch? && |r.ts| > 0
  {
    Branch(l.at, l.ks + [k], l.ts + [r.ts[0]])
  }

  ghost function LeftRight(r: Shape): (s: Shape)
    requires r.Branch? && |r.ks| > 0 && |r.ts| == |r.ks| + 1
  {
    Branch(r.at, r.ks[1..], r.ts[1..])
  }

  ghost function Merged(l: Shape, k: NodeKey, r: Shape): (s: Shape)
    requires l.Branch? && r.Branch?
  {
    Branch(l.at, l.ks + [k] + r.ks, l.ts + r.ts)
  }

  ghost function RotatedRight(t: Shape, i: nat): (r: Shape)
    requires t.Branch? && |t.ts| == |t.ks| + 1 && i < |t.ks|
    requires t.ts[i].Branch? && t.ts[i + 1].Branch? && |t.ts[i].ks| > 0 && |t.ts[i].ts| == |t.ts[i].ks| + 1
  {
    var l, r := t.ts[i], t.ts[i + 1];
    Paired(t, i, RightLeft(l), l.ks[|l.ks| - 1], RightRight(l, t.ks[i], r))
  }

  ghost function RotatedLeft(t: Shape, i: nat): (r: Shape)
    requires t.Branch? && |t.ts| == |t.ks| + 1 && i < |t.ks|
    requires t.ts[i].Branch? && t.ts[i + 1].Branch? && |t.ts[i].ts| == |t.ts[i].ks| + 1
    requires |t.ts[i + 1].ks| > 0 && |t.ts[i + 1].ts| == |t.ts[i + 1].ks| + 1
  {
    var l, r := t.ts[i], t.ts[i + 1];
    Paired(t, i, LeftLeft(l, t.ks[i], r), r.ks[0], LeftRight(r))
  }

  ghost function Combined(t: Shape, i: nat): (r: Shape)
    requires t.Branch? && |t.ts| == |t.ks| + 1 && i < |t.ks| && t.ts[i].Branch? && t.ts[i + 1].Branch?
  {
    Fused(t, i, Merged(t.ts[i], t.ks[i], t.ts[i + 1]))
  }

  /** Removing a key from a leaf. */
  ghost function LeafWithout(t: Shape, pos: nat): (r: Shape)
    requires t.Branch? && |t.ts| == |t.ks| + 1 && pos < |t.ks|
  {
    Fused(t, pos, t.ts[pos])
  }

  // ---- a short child ----

  ghost predicate Short(t: Shape) {
    t.Branch? && |t.ks| < TREE_NODEMIN
  }

  /** The pair of children that is balanced when child `pos` is short begins here. */
  ghost function PairAt(pos: nat): (i: nat) {
    if pos > 0 then pos - 1 else 0
  }

  /** Child `pos` has the neighbour that is asked for a key. */
  ghost predicate Mendable(t: Shape, pos: nat) {
    && t.Branch? && |t.ts| == |t.ks| + 1 && pos < |t.ts| && |t.ks| > 0
    && var l, r := t.ts[PairAt(pos)], t.ts[PairAt(pos) + 1];
       l.Branch? && r.Branch? && |l.ts| == |l.ks| + 1 && |r.ts| == |r.ks| + 1
  }

  /** The node after child `pos` was balanced with that neighbour. */
  ghost function Mended(t: Shape, pos: nat): (r: Shape)
    requires Mendable(t, pos)
  {
    if pos > 0 then
      if |t.ts[pos - 1].ks| > TREE_NODEMIN then RotatedRight(t, pos - 1) else Combined(t, pos - 1)
    else
      if |t.ts[1].ks| > TREE_NODEMIN then RotatedLeft(t, 0) else Combined(t, 0)
  }

  ghost function MendedIfShort(t: Shape, pos: nat): (r: Shape)
    requires t.Branch? && pos < |t.ts|
  {
    if Short(t.ts[pos]) && Mendable(t, pos) then Mended(t, pos) else t
  }

  /** What is to the left and to the right of two neighbouring children stays as it is. */
  ghost predicate RestStays(t: Shape, i: nat, u: Shape) {
    && t.Branch? && u.Branch? && u.at == t.at && |t.ts| == |t.ks| + 1 && i < |t.ks|
    && |u.ts| == |u.ks| + 1 && |u.ks| + 1 >= |t.ks|
    && u.ks[..i] == t.ks[..i] && u.ts[..i] == t.ts[..i]
    && var n := |t.ks| - i - 1;
       u.ks[|u.ks| - n..] == t.ks[i + 1..] && u.ts[|u.ts| - n..] == t.ts[i + 2..]
  }

  /** Children `i` and `i + 1` hold the same keys as before, with the one between them, but child `pos` has one
      more in its own node, and the other one less. */
  ghost predicate OneMoved(t: Shape, i: nat, pos: nat, u: Shape) {
    && t.Branch? && u.Branch? && i + 1 < |t.ts| && |u.ts| == |t.ts| && |u.ks| == |t.ks| == |t.ts| - 1
    && Flat(u.ts[i]) + [u.ks[i]] + Flat(u.ts[i + 1]) == Flat(t.ts[i]) + [t.ks[i]] + Flat(t.ts[i + 1])
    && forall j :: i <= j <= i + 1 ==>
         && t.ts[j].Branch? && u.ts[j].Branch? && u.ts[j].at == t.ts[j].at
         && |u.ts[j].ks| == if j == pos then |t.ts[j].ks| + 1 else |t.ts[j].ks| - 1
  }

  /** Children `i` and `i + 1` have become one, in the block of the first, with the key between them. */
  ghost predicate MadeOne(t: Shape, i: nat, u: Shape) {
    && t.Branch? && u.Branch? && i + 1 < |t.ts| && |u.ts| == |t.ts| - 1 && |u.ks| == |t.ks| - 1 == |t.ts| - 2
    && t.ts[i].Branch? && u.ts[i].Branch? && u.ts[i].at == t.ts[i].at
    && Flat(u.ts[i]) == Flat(t.ts[i]) + [t.ks[i]] + Flat(t.ts[i + 1])
  }

  /** A short child is balanced with its left neighbour, and the first one with the second: a key moves over
      if the neighbour has more than two, and otherwise the two become one. Nothing else in the node changes. */
  ghost predicate Balanced(t: Shape, pos: nat, u: Shape) {
    && t.Branch? && pos < |t.ts| && |t.ts| > 1
    && (pos > 0 ==> PairBalanced(t, pos - 1, pos, t.ts[pos - 1], u))
    && (pos == 0 ==> PairBalanced(t, 0, 0, t.ts[1], u))
  }

  ghost predicate PairBalanced(t: Shape, i: nat, pos: nat, neighbour: Shape, u: Shape) {
    && RestStays(t, i, u)
    && if neighbour.Branch? && |neighbour.ks| > 2 then OneMoved(t, i, pos, u) else MadeOne(t, i, u)
  }

  lemma MendedBalances(t: Shape, pos: nat)
    requires Mendable(t, pos)
    ensures Balanced(t, pos, Mended(t, pos))
  {
    var i := PairAt(pos);
    var l, r, k := t.ts[i], t.ts[i + 1], t.ks[i];
    hide Flat;
    if pos > 0 && |l.ks| > TREE_NODEMIN {
      PairedRest(t, i, RightLeft(l), l.ks[|l.ks| - 1], RightRight(l, k, r));
      RotateRightKeys(l, k, r);
    } else if pos == 0 && |r.ks| > TREE_NODEMIN {
      PairedRest(t, i, LeftLeft(l, k, r), r.ks[0], LeftRight(r));
      RotateLeftKeys(l, k, r);
    } else {
      FusedRest(t, i, Merged(l, k, r));
      MergeKeys(l, k, r);
    }
  }

  lemma PairedRest(t: Shape, i: nat, l: Shape, k: NodeKey, r: Shape)
    requires t.Branch? && |t.ts| == |t.ks| + 1 && i < |t.ks|
    ensures var u := Paired(t, i, l, k, r);
      RestStays(t, i, u) && |u.ks| == |t.ks| && u.ts[i] == l && u.ks[i] == k && u.ts[i + 1] == r
  {
  }

  lemma FusedRest(t: Shape, i: nat, c: Shape)
    requires t.Branch? && |t.ts| == |t.ks| + 1 && i < |t.ks|
    ensures var u := Fused(t, i, c);
      RestStays(t, i, u) && |u.ks| == |t.ks| - 1 && u.ts[i] == c
  {
  }

  lemma RotateRightKeys(l: Shape, k: NodeKey, r: Shape)
    requires l.Branch? && r.Branch? && |l.ks| > 0 && |l.ts| == |l.ks| + 1
    ensures Flat(RightLeft(l)) + [l.ks[|l.ks| - 1]] + Flat(RightRight(l, k, r)) == Flat(l) + [k] + Flat(r)
  {
    var m := |l.ks|;
    var last := l.ts[m];
    assert Flat(l) == Flat(RightLeft(l)) + [l.ks[m - 1]] + Flat(last) by {
      WeaveSplit(l.ks, l.ts, m - 1);
      assert l.ks[m..] == [] && l.ts[m..] == [last];
    }
    assert Flat(RightRight(l, k, r)) == Flat(last) + [k] + Flat(r) by {
      assert ([k] + r.ks)[1..] == r.ks && ([last] + r.ts)[1..] == r.ts;
    }
  }

  lemma RotateLeftKeys(l: Shape, k: NodeKey, r: Shape)
    requires l.Branch? && r.Branch? && |l.ts| == |l.ks| + 1 && |r.ks| > 0 && |r.ts| == |r.ks| + 1
    ensures Flat(LeftLeft(l, k, r)) + [r.ks[0]] + Flat(LeftRight(r)) == Flat(l) + [k] + Flat(r)
  {
    WeaveJoin(l.ks, l.ts, k, [], [r.ts[0]]);
    assert l.ks + [k] + [] == l.ks + [k];
    assert Weave([], [r.ts[0]]) == Flat(r.ts[0]);
  }

  lemma MergeKeys(l: Shape, k: NodeKey, r: Shape)
    requires l.Branch? && r.Branch? && |l.ts| == |l.ks| + 1 && |r.ts| == |r.ks| + 1
    ensures Flat(Merged(l, k, r)) == Flat(l) + [k] + Flat(r)
  {
    WeaveJoin(l.ks, l.ts, k, r.ks, r.ts);
  }

  // ---- the removal ----

  /** The removal from a subtree. An inner key gives way to the next larger one, which leaves the child behind it. */
  ghost function RemShape(t: Shape, k: NodeKey): (r: Shape) {
    match t
    case Nil => Nil
    case Branch(_, ks, ts) =>
      var pos := PosOf(ks, k);
      if |ts| != |ks| + 1 then t
      else if pos < |ks| && ks[pos] == k then
        if ts[pos + 1].Nil? || Flat(ts[pos + 1]) == [] then LeafWithout(t, pos)
        else
          var s := Flat(ts[pos + 1])[0];
          MendedIfShort(Replaced(Rekeyed(t, pos, s), pos + 1, RemShape(ts[pos + 1], s)), pos + 1)
      else MendedIfShort(Replaced(t, pos, RemShape(ts[pos], k)), pos)
  }

  /** A root without keys gives way to its only child. */
  ghost function Collapsed(t: Shape): (r: Shape) {
    if t.Branch? && t.ks == [] && |t.ts| == 1 then t.ts[0] else t
  }

  /** The removal from a whole tree. */
  ghost function RemovedShape(t: Shape, k: NodeKey): (r: Shape) {
    Collapsed(RemShape(t, k))
  }

  // ---- the removal step by step ----

  lemma RemovedFromChild(t: Shape, pos: nat, k: NodeKey, c: Shape)
    requires GoesInto(t, pos, k) && c == RemShape(t.ts[pos], k)
    ensures RemShape(t, k) == MendedIfShort(Replaced(t, pos, c), pos)
  {
    hide MendedIfShort;
  }

  /** The removal finds its key as key `pos` of this node. */
  ghost predicate FoundAt(t: Shape, pos: nat, k: NodeKey) {
    t.Branch? && |t.ts| == |t.ks| + 1 && pos < |t.ks| && pos == PosOf(t.ks, k) && t.ks[pos] == k
  }

  lemma RemovedFromLeaf(t: Shape, pos: nat, k: NodeKey)
    requires FoundAt(t, pos, k) && t.ts[pos + 1].Nil?
    ensures RemShape(t, k) == LeafWithout(t, pos)
  {
    hide MendedIfShort;
  }

  lemma RemovedForSuccessor(t: Shape, pos: nat, k: NodeKey, s: NodeKey, c: Shape)
    requires FoundAt(t, pos, k) && t.ts[pos + 1].Branch?
    requires Flat(t.ts[pos + 1]) != [] && s == Flat(t.ts[pos + 1])[0] && c == RemShape(t.ts[pos + 1], s)
    ensures RemShape(t, k) == MendedIfShort(Replaced(Rekeyed(t, pos, s), pos + 1, c), pos + 1)
  {
    hide MendedIfShort;
    hide Flat;
  }

  // ---- which neighbour it is ----

  /** Where a removal leaves child `pos` short, every key and subtree to the right of it stays, unless it is the
      first child; and the child is balanced with its left neighbour, or the first one with the second. */
  lemma ShortTurnsLeft(t: Shape, pos: nat, k: NodeKey, c: Shape)
    requires GoesInto(t, pos, k) && c == RemShape(t.ts[pos], k) && c.Branch? && |c.ks| < 2
    requires Mendable(Replaced(t, pos, c), pos)
    ensures var u := RemShape(t, k);
      && u.Branch? && Balanced(Replaced(t, pos, c), pos, u)
      && (pos > 0 ==>
          && |u.ks| >= |t.ks| - pos && |u.ts| >= |t.ks| - pos
          && u.ks[|u.ks| - (|t.ks| - pos)..] == t.ks[pos..] && u.ts[|u.ts| - (|t.ks| - pos)..] == t.ts[pos + 1..])
  {
    RemovedFromChild(t, pos, k, c);
    MendedBalances(Replaced(t, pos, c), pos);
    hide RemShape;
    hide Mended;
    hide OneMoved;
    hide MadeOne;
    assert Replaced(t, pos, c).ts[pos + 1..] == t.ts[pos + 1..];
  }

  ghost function Leaf(at: Ref, ks: seq<NodeKey>): (t: Shape) {
    Branch(at, ks, seq(|ks| + 1, _ => Nil))
  }

  /** Eight keys over three leaves: when the fourth is removed, its leaf is merged to the left, and the sixth key
      stays in the root. */
  lemma EightKeys(a: Ref, b: Ref, c: Ref, d: Ref, ks: seq<NodeKey>)
    requires |ks| == 8 && Sorted(ks)
    ensures RemovedShape(Branch(a, [ks[2], ks[5]], [Leaf(b, ks[..2]), Leaf(c, ks[3..5]), Leaf(d, ks[6..])]), ks[3]) ==
      Branch(a, [ks[5]], [Leaf(b, [ks[0], ks[1], ks[2], ks[4]]), Leaf(d, ks[6..])])
  {
    var leaf, k := Leaf(c, ks[3..5]), ks[3];
    var t := Branch(a, [ks[2], ks[5]], [Leaf(b, ks[..2]), leaf, Leaf(d, ks[6..])]);
    CompareIsStrictOrder(ks[2], k, ks[5]);
    CompareIsStrictOrder(k, ks[4], k);
    CompareIsStrictOrder(k, ks[5], k);
    PosOne([ks[2], ks[5]], k);
    PosZero(ks[3..5], k);
    hide PosOf;
    RemovedFromLeaf(leaf, 0, k);
    var short := LeafWithout(leaf, 0);
    assert short == Leaf(c, [ks[4]]);
    assert GoesInto(t, 1, k);
    RemovedFromChild(t, 1, k, short);
    hide RemShape;
    var u := Replaced(t, 1, short);
    assert u.ts == [Leaf(b, ks[..2]), short, Leaf(d, ks[6..])];
    assert Mended(u, 1) == Combined(u, 0);
    assert Merged(u.ts[0], ks[2], short) == Leaf(b, [ks[0], ks[1], ks[2], ks[4]]);
  }

  lemma PosZero(ks: seq<NodeKey>, k: NodeKey)
    requires ks != [] && !Less(ks[0], k)
    ensures PosOf(ks, k) == 0
  {
  }

  lemma PosOne(ks: seq<NodeKey>, k: NodeKey)
    requires |ks| > 1 && Less(ks[0], k) && !Less(ks[1], k)
    ensures PosOf(ks, k) == 1
  {
    PosZero(ks[1..], k);
  }
}
