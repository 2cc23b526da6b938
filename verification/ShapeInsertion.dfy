/** What an insertion makes of the shape of a tree: a function of the shape and the key alone, against
    which the step by step insertion is proved. */
module ShapeInsertion {
  import opened NodeKeys
  import opened Shapes

  /** Child `pos` replaced. */
  ghost function Replaced(t: Shape, pos: nat, c: Shape): (r: Shape)
    requires t.Branch? && pos < |t.ts|
  {
    Branch(t.at, t.ks, t.ts[..pos] + [c] + t.ts[pos + 1..])
  }

  /** A node with one more key and one more child, as it is before any split. */
  ghost function Widened(t: Shape, pos: nat, c: Shape, k: NodeKey, d: Shape): (r: Shape)
    requires t.Branch? && |t.ts| == |t.ks| + 1 && pos < |t.ts|
  {
    Branch(t.at, t.ks[..pos] + [k] + t.ks[pos..], t.ts[..pos] + [c, d] + t.ts[pos + 1..])
  }

  ghost function LowHalf(u: Shape): (r: Shape)
    requires u.Branch? && |u.ks| == TREE_NODECOUNT + 1 && |u.ts| == TREE_NODECOUNT + 2
  {
    Branch(u.at, u.ks[..TREE_NODEMIN], u.ts[..TREE_NODEMIN + 1])
  }

  ghost function HighHalf(u: Shape, r: Ref): (s: Shape)
    requires u.Branch? && |u.ks| == TREE_NODECOUNT + 1 && |u.ts| == TREE_NODECOUNT + 2
  {
    Branch(r, u.ks[TREE_NODEMIN + 1..], u.ts[TREE_NODEMIN + 1..])
  }

  ghost function TwoUnder(r: Ref, t1: Shape, up: NodeKey, t2: Shape): (s: Shape) {
    Branch(r, [up], [t1, t2])
  }

  /** The number of keys in front of the first one that is not below `k`. */
  ghost function PosOf(ks: seq<NodeKey>, k: NodeKey): (pos: nat)
    ensures pos <= |ks|
    ensures forall i :: 0 <= i < pos ==> Less(ks[i], k)
    ensures pos < |ks| ==> !Less(ks[pos], k)
  {
    if ks == [] || !Less(ks[0], k) then 0 else 1 + PosOf(ks[1..], k)
  }

  /** A tree that took the key, or the two trees and the key between them that it fell into. */
  datatype Growth = Kept(t: Shape) | Split(l: Shape, up: NodeKey, r: Shape)

  /** What a node makes of a child that fell into two. */
  ghost function Take(t: Shape, pos: nat, c: Shape, up: NodeKey, d: Shape): (r: Growth)
    requires t.Branch? && |t.ts| == |t.ks| + 1 && pos < |t.ts|
  {
    var w := Widened(t, pos, c, up, d);
    if |t.ks| != TREE_NODECOUNT then Kept(w) else Split(LowHalf(w), w.ks[TREE_NODEMIN], HighHalf(w, EMPTY))
  }

  /** The insertion into a subtree. New blocks have no address here. */
  ghost function InsShape(t: Shape, k: NodeKey): (r: Growth) {
    match t
    case Nil => Split(Nil, k, Nil)
    case Branch(_, ks, ts) =>
      var pos := PosOf(ks, k);
      if |ts| != |ks| + 1 || (pos < |ks| && ks[pos] == k) then Kept(t)
      else
        match InsShape(ts[pos], k)
        case Kept(c) => Kept(Replaced(t, pos, c))
        case Split(c, up, d) => Take(t, pos, c, up, d)
  }

  /** The insertion into a whole tree. */
  ghost function AddShape(t: Shape, k: NodeKey): (r: Shape) {
    match InsShape(t, k)
    case Kept(u) => u
    case Split(l, up, r) => TwoUnder(EMPTY, l, up, r)
  }

  // ---- trees that differ in the addresses of their blocks only ----

  ghost predicate Alike(t: Shape, u: Shape) {
    match t
    case Nil => u.Nil?
    case Branch(_, ks, ts) =>
      u.Branch? && u.ks == ks && |u.ts| == |ts| && forall i :: 0 <= i < |ts| ==> Alike(ts[i], u.ts[i])
  }

  ghost predicate AlikeAll(ts: seq<Shape>, us: seq<Shape>) {
    |us| == |ts| && forall i :: 0 <= i < |ts| ==> Alike(ts[i], us[i])
  }

  lemma {:induction false} AlikeSelf(t: Shape)
    ensures Alike(t, t)
  {
    if t.Branch? {
      forall i | 0 <= i < |t.ts| ensures Alike(t.ts[i], t.ts[i]) {
        AlikeSelf(t.ts[i]);
      }
    }
  }

  lemma AlikeSelves(ts: seq<Shape>)
    ensures AlikeAll(ts, ts)
  {
    forall i | 0 <= i < |ts| ensures Alike(ts[i], ts[i]) {
      AlikeSelf(ts[i]);
    }
  }

  lemma AlikeJoin(ts: seq<Shape>, us: seq<Shape>, ts': seq<Shape>, us': seq<Shape>)
    requires AlikeAll(ts, us) && AlikeAll(ts', us')
    ensures AlikeAll(ts + ts', us + us')
  {
  }

  lemma ReplacedAlike(t: Shape, pos: nat, c: Shape, c': Shape)
    requires t.Branch? && pos < |t.ts| && Alike(c, c')
    ensures Alike(Replaced(t, pos, c), Replaced(t, pos, c'))
  {
    AlikeSelves(t.ts[..pos]);
    AlikeSelves(t.ts[pos + 1..]);
    hide Alike;
    AlikeJoin(t.ts[..pos], t.ts[..pos], [c], [c']);
    AlikeJoin(t.ts[..pos] + [c], t.ts[..pos] + [c'], t.ts[pos + 1..], t.ts[pos + 1..]);
    AlikeNode(Replaced(t, pos, c), Replaced(t, pos, c'));
  }

  lemma AlikeNode(t: Shape, u: Shape)
    requires t.Branch? && u.Branch? && u.ks == t.ks && AlikeAll(t.ts, u.ts)
    ensures Alike(t, u)
  {
  }

  lemma WidenedAlike(t: Shape, pos: nat, c: Shape, c': Shape, up: NodeKey, d: Shape, d': Shape)
    requires t.Branch? && |t.ts| == |t.ks| + 1 && pos < |t.ts| && Alike(c, c') && Alike(d, d')
    ensures Alike(Widened(t, pos, c, up, d), Widened(t, pos, c', up, d'))
  {
    AlikeSelves(t.ts[..pos]);
    AlikeSelves(t.ts[pos + 1..]);
    hide Alike;
    AlikeJoin(t.ts[..pos], t.ts[..pos], [c, d], [c', d']);
    AlikeJoin(t.ts[..pos] + [c, d], t.ts[..pos] + [c', d'], t.ts[pos + 1..], t.ts[pos + 1..]);
    AlikeNode(Widened(t, pos, c, up, d), Widened(t, pos, c', up, d'));
  }

  lemma HalvesAlike(w: Shape, w': Shape, r: Ref, r': Ref)
    requires w.Branch? && |w.ks| == TREE_NODECOUNT + 1 && |w.ts| == TREE_NODECOUNT + 2 && Alike(w, w')
    ensures w'.Branch? && |w'.ks| == TREE_NODECOUNT + 1 && |w'.ts| == TREE_NODECOUNT + 2
    ensures Alike(LowHalf(w), LowHalf(w')) && Alike(HighHalf(w, r), HighHalf(w', r'))
  {
  }

  // ---- the outcome of the insertion step by step ----

  /** The subtree `t` took `k` and is now like `t1`. */
  ghost predicate Becomes(t: Shape, k: NodeKey, t1: Shape) {
    InsShape(t, k).Kept? && Alike(t1, InsShape(t, k).t)
  }

  /** The subtree `t` fell into trees like `t1` and `t2`, and the key `up`. */
  ghost predicate SplitsInto(t: Shape, k: NodeKey, t1: Shape, up: NodeKey, t2: Shape) {
    var r := InsShape(t, k);
    r.Split? && r.up == up && Alike(t1, r.l) && Alike(t2, r.r)
  }

  /** The search for `k` goes on in child `pos`. */
  ghost predicate GoesInto(t: Shape, pos: nat, k: NodeKey) {
    && t.Branch? && |t.ts| == |t.ks| + 1 && pos == PosOf(t.ks, k)
    && (pos < |t.ks| ==> t.ks[pos] != k)
  }

  lemma FoundBecomes(t: Shape, k: NodeKey)
    requires t.Branch? && PosOf(t.ks, k) < |t.ks| && t.ks[PosOf(t.ks, k)] == k
    ensures Becomes(t, k, t)
  {
    AlikeSelf(t);
  }

  lemma NilSplits(k: NodeKey)
    ensures SplitsInto(Nil, k, Nil, k, Nil)
  {
  }

  lemma ChildBecomes(t: Shape, pos: nat, k: NodeKey, c: Shape)
    requires GoesInto(t, pos, k) && Becomes(t.ts[pos], k, c)
    ensures Becomes(t, k, Replaced(t, pos, c))
  {
    var r := InsShape(t.ts[pos], k);
    assert InsShape(t, k) == Kept(Replaced(t, pos, r.t));
    ReplacedAlike(t, pos, c, r.t);
  }

  lemma ChildTaken(t: Shape, pos: nat, k: NodeKey, c: Shape, up: NodeKey, d: Shape)
    requires GoesInto(t, pos, k) && SplitsInto(t.ts[pos], k, c, up, d) && |t.ks| < TREE_NODECOUNT
    ensures Becomes(t, k, Widened(t, pos, c, up, d))
  {
    var r := InsShape(t.ts[pos], k);
    assert InsShape(t, k) == Take(t, pos, r.l, r.up, r.r);
    WidenedAlike(t, pos, c, r.l, up, d, r.r);
  }

  lemma ChildSplits(t: Shape, pos: nat, k: NodeKey, c: Shape, up: NodeKey, d: Shape, at: Ref)
    requires GoesInto(t, pos, k) && SplitsInto(t.ts[pos], k, c, up, d) && |t.ks| == TREE_NODECOUNT
    ensures var w := Widened(t, pos, c, up, d);
      |w.ks| == TREE_NODECOUNT + 1 && |w.ts| == TREE_NODECOUNT + 2
      && SplitsInto(t, k, LowHalf(w), w.ks[TREE_NODEMIN], HighHalf(w, at))
  {
    var r := InsShape(t.ts[pos], k);
    assert InsShape(t, k) == Take(t, pos, r.l, r.up, r.r);
    WidenedAlike(t, pos, c, r.l, up, d, r.r);
    HalvesAlike(Widened(t, pos, c, up, d), Widened(t, pos, r.l, up, r.r), at, EMPTY);
  }

  lemma KeptAdded(t: Shape, k: NodeKey, t1: Shape)
    requires Becomes(t, k, t1)
    ensures Alike(t1, AddShape(t, k))
  {
  }

  lemma SplitAdded(t: Shape, k: NodeKey, t1: Shape, up: NodeKey, t2: Shape, at: Ref)
    requires SplitsInto(t, k, t1, up, t2)
    ensures Alike(TwoUnder(at, t1, up, t2), AddShape(t, k))
  {
  }
}
