/** Trees that grow at their right edge only, because each new key is larger than all others: every node off
    the edge keeps the two keys that a split leaves it, so the number of keys alone decides when the root
    splits and which key then stands in it. */
module RightEdge {
  import opened NodeKeys
  import opened ShapeInsertion
  import opened Shapes

  /** Two keys in every node, all leaves at depth `h`. */
  ghost predicate Perfect(t: Shape, h: nat) {
    match t
    case Nil => h == 0
    case Branch(_, ks, ts) =>
      && h > 0 && |ks| == TREE_NODEMIN && |ts| == |ks| + 1
      && forall i :: 0 <= i < |ts| ==> Perfect(ts[i], h - 1)
  }

  /** Perfect except along the right edge. */
  ghost predicate Lean(t: Shape, h: nat, lo: nat) {
    match t
    case Nil => h == 0
    case Branch(_, ks, ts) =>
      && h > 0 && lo <= |ks| <= TREE_NODECOUNT && |ts| == |ks| + 1
      && (forall i :: 0 <= i < |ks| ==> Perfect(ts[i], h - 1))
      && Lean(ts[|ks|], h - 1, TREE_NODEMIN)
  }

  lemma {:induction false} PerfectIsLean(t: Shape, h: nat)
    requires Perfect(t, h)
    ensures Lean(t, h, TREE_NODEMIN)
  {
    if t.Branch? {
      PerfectIsLean(t.ts[|t.ks|], h - 1);
    }
  }

  lemma {:induction false} PerfectAlike(t: Shape, u: Shape, h: nat)
    requires Alike(t, u) && Perfect(u, h)
    ensures Perfect(t, h)
  {
    if t.Branch? {
      forall i | 0 <= i < |t.ts| ensures Perfect(t.ts[i], h - 1) {
        PerfectAlike(t.ts[i], u.ts[i], h - 1);
      }
    }
  }

  lemma {:induction false} LeanAlike(t: Shape, u: Shape, h: nat, lo: nat)
    requires Alike(t, u) && Lean(u, h, lo)
    ensures Lean(t, h, lo)
  {
    if t.Branch? {
      forall i | 0 <= i < |t.ks| ensures Perfect(t.ts[i], h - 1) {
        PerfectAlike(t.ts[i], u.ts[i], h - 1);
      }
      LeanAlike(t.ts[|t.ks|], u.ts[|t.ks|], h - 1, TREE_NODEMIN);
    }
  }

  // ---- one more key at the edge ----

  /** Every key along the right edge is below `k`. */
  ghost predicate EdgeBelow(t: Shape, k: NodeKey) {
    t.Branch? ==> (forall i :: 0 <= i < |t.ks| ==> Less(t.ks[i], k)) && (t.ts != [] ==> EdgeBelow(t.ts[|t.ts| - 1], k))
  }

  lemma {:induction false} AllBelow(t: Shape, h: nat, lo: nat, k: NodeKey)
    requires Lean(t, h, lo) && AllLess(Flat(t), k)
    ensures EdgeBelow(t, k)
  {
    if t.Branch? {
      var n := |t.ks|;
      forall i | 0 <= i < n ensures Less(t.ks[i], k) {
        KeyHere(t, i);
        var j :| 0 <= j < |Flat(t)| && Flat(t)[j] == t.ks[i];
      }
      LeadWhole(t);
      var lead, last := Lead(t.ks[..n], t.ts[..n]), Flat(t.ts[n]);
      forall j | 0 <= j < |last| ensures Less(last[j], k) {
        assert Flat(t)[|lead| + j] == last[j];
      }
      AllBelow(t.ts[n], h - 1, TREE_NODEMIN, k);
    }
  }

  /** What may come of an insertion at the edge. */
  ghost predicate EdgeOutcome(t: Shape, h: nat, lo: nat, r: Growth) {
    if r.Kept? then
      t.Branch? && Lean(r.t, h, lo) && r.t.Branch? && (t.ks != [] ==> r.t.ks != [] && r.t.ks[0] == t.ks[0])
    else
      Perfect(r.l, h) && Perfect(r.r, h)
  }

  /** The edge takes the key, or everything below the key that comes up is perfect. */
  lemma {:induction false} EdgeGrows(t: Shape, h: nat, lo: nat, k: NodeKey)
    requires Lean(t, h, lo) && lo <= TREE_NODEMIN && EdgeBelow(t, k)
    ensures EdgeOutcome(t, h, lo, InsShape(t, k))
    decreases t
  {
    if t.Branch? {
      var n := |t.ks|;
      assert PosOf(t.ks, k) == n;
      EdgeGrows(t.ts[n], h - 1, TREE_NODEMIN, k);
      var r := InsShape(t.ts[n], k);
      if r.Kept? {
        EdgeReplaced(t, h, lo, r.t);
      } else {
        EdgeTakes(t, h, lo, r.l, r.up, r.r);
      }
    }
  }

  lemma EdgeReplaced(t: Shape, h: nat, lo: nat, c: Shape)
    requires t.Branch? && Lean(t, h, lo) && Lean(c, h - 1, TREE_NODEMIN)
    ensures Lean(Replaced(t, |t.ks|, c), h, lo)
  {
  }

  lemma EdgeTakes(t: Shape, h: nat, lo: nat, c: Shape, up: NodeKey, d: Shape)
    requires t.Branch? && Lean(t, h, lo) && Perfect(c, h - 1) && Perfect(d, h - 1) && lo <= TREE_NODEMIN
    ensures EdgeOutcome(t, h, lo, Take(t, |t.ks|, c, up, d))
  {
    var w := Widened(t, |t.ks|, c, up, d);
    WideEdge(t, h, lo, c, up, d);
    hide Widened;
    hide Perfect;
    hide Lean;
    if |t.ks| < TREE_NODECOUNT {
      KeptEdge(w, h, lo);
    } else {
      SplitEdge(w, h);
    }
  }

  /** `n` keys, and perfect trees of height `h` between them. */
  ghost predicate AllPerfect(w: Shape, n: nat, h: nat) {
    w.Branch? && |w.ks| == n && |w.ts| == n + 1 && forall i :: 0 <= i < |w.ts| ==> Perfect(w.ts[i], h)
  }

  lemma WideEdge(t: Shape, h: nat, lo: nat, c: Shape, up: NodeKey, d: Shape)
    requires t.Branch? && Lean(t, h, lo) && Perfect(c, h - 1) && Perfect(d, h - 1)
    ensures lo <= |t.ks| <= TREE_NODECOUNT && |t.ts| == |t.ks| + 1 && h > 0
    ensures AllPerfect(Widened(t, |t.ks|, c, up, d), |t.ks| + 1, h - 1)
    ensures t.ks != [] ==> Widened(t, |t.ks|, c, up, d).ks[0] == t.ks[0]
  {
    var w := Widened(t, |t.ks|, c, up, d);
    assert |w.ks| == |t.ks| + 1 && |w.ts| == |t.ts| + 1;
    hide Perfect;
    forall i | 0 <= i < |w.ts| ensures Perfect(w.ts[i], h - 1) {
      assert w.ts[i] == if i < |t.ks| then t.ts[i] else if i == |t.ks| then c else d;
    }
  }

  lemma KeptEdge(w: Shape, h: nat, lo: nat)
    requires h > 0 && w.Branch? && lo <= |w.ks| <= TREE_NODECOUNT && AllPerfect(w, |w.ks|, h - 1)
    ensures Lean(w, h, lo)
  {
    hide Perfect;
    PerfectIsLean(w.ts[|w.ks|], h - 1);
  }

  lemma SplitEdge(w: Shape, h: nat)
    requires h > 0 && AllPerfect(w, TREE_NODECOUNT + 1, h - 1)
    ensures Perfect(LowHalf(w), h) && Perfect(HighHalf(w, EMPTY), h)
  {
  }

  /** The whole tree: either the root keeps its first key, or the tree gets one level more. */
  lemma EdgeAdds(t: Shape, h: nat, k: NodeKey)
    requires Lean(t, h, 1) && AllLess(Flat(t), k)
    ensures InsShape(t, k).Kept? ==> h > 0 && Lean(AddShape(t, k), h, 1) && t.ks[0] == AddShape(t, k).ks[0]
    ensures InsShape(t, k).Split? ==> Lean(AddShape(t, k), h + 1, 1)
  {
    AllBelow(t, h, 1, k);
    EdgeGrows(t, h, 1, k);
    var r := InsShape(t, k);
    if r.Split? {
      PerfectIsLean(r.r, h);
    }
  }

  // ---- how many keys there are ----

  lemma {:induction false} LeadSize(ks: seq<NodeKey>, ts: seq<Shape>, h: nat)
    requires |ks| == |ts| && forall i :: 0 <= i < |ts| ==> Perfect(ts[i], h)
    ensures |Lead(ks, ts)| == |ts| * Pow3(h)
    decreases ts
  {
    if ts != [] {
      PerfectSize(ts[0], h);
      LeadSize(ks[1..], ts[1..], h);
      assert |ts| * Pow3(h) == Pow3(h) + |ts[1..]| * Pow3(h);
    }
  }

  lemma {:induction false} PerfectSize(t: Shape, h: nat)
    requires Perfect(t, h)
    ensures |Flat(t)| + 1 == Pow3(h)
    decreases t
  {
    if t.Branch? {
      PerfectNode(t, h);
      hide Flat;
      hide Lead;
      hide Perfect;
      LeadSize(t.ks[..TREE_NODEMIN], t.ts[..TREE_NODEMIN], h - 1);
      PerfectSize(t.ts[TREE_NODEMIN], h - 1);
    }
  }

  lemma PerfectNode(t: Shape, h: nat)
    requires t.Branch? && Perfect(t, h)
    ensures h > 0 && |t.ks| == TREE_NODEMIN && |t.ts| == TREE_NODEMIN + 1
    ensures forall i :: 0 <= i < |t.ts| ==> Perfect(t.ts[i], h - 1)
    ensures |Flat(t)| == |Lead(t.ks[..TREE_NODEMIN], t.ts[..TREE_NODEMIN])| + |Flat(t.ts[TREE_NODEMIN])|
  {
    LeadWhole(t);
  }

  /** A height has its own range of sizes. */
  lemma {:induction false} LeanSize(t: Shape, h: nat, lo: nat)
    requires Lean(t, h, lo)
    ensures h > 0 ==> (lo + 1) * Pow3(h - 1) <= |Flat(t)| + 1
    ensures |Flat(t)| + 2 <= 2 * Pow3(h)
    decreases t
  {
    if t.Branch? {
      var n, p := |t.ks|, Pow3(h - 1);
      LeanNode(t, h, lo);
      hide Flat;
      hide Lead;
      hide Lean;
      LeadSize(t.ks[..n], t.ts[..n], h - 1);
      LeanSize(t.ts[n], h - 1, TREE_NODEMIN);
      LeanSum(|Flat(t.ts[n])|, n, p, lo, if h > 1 then Pow3(h - 2) else 0);
    }
  }

  lemma LeanNode(t: Shape, h: nat, lo: nat)
    requires t.Branch? && Lean(t, h, lo)
    ensures h > 0 && lo <= |t.ks| <= TREE_NODECOUNT && |t.ts| == |t.ks| + 1
    ensures forall i :: 0 <= i < |t.ks| ==> Perfect(t.ts[i], h - 1)
    ensures Lean(t.ts[|t.ks|], h - 1, TREE_NODEMIN)
    ensures |Flat(t)| == |Lead(t.ks[..|t.ks|], t.ts[..|t.ks|])| + |Flat(t.ts[|t.ks|])|
  {
    LeadWhole(t);
  }

  lemma LeanSum(last: nat, n: nat, p: nat, lo: nat, q: nat)
    requires lo <= n <= TREE_NODECOUNT && last + 2 <= 2 * p
    requires (q == 0 ==> p == 1) && (q > 0 ==> p == 3 * q && p <= last + 1)
    ensures (lo + 1) * p <= n * p + last + 1
    ensures n * p + last + 2 <= 2 * (3 * p)
  {
    assert lo * p <= n * p <= TREE_NODECOUNT * p;
    assert (lo + 1) * p == lo * p + p;
  }

  /** The first key of the root is number 3^(h - 1) of all keys. */
  lemma RootKey(t: Shape, h: nat)
    requires Lean(t, h, 1) && h > 0
    ensures t.Branch? && 0 < Pow3(h - 1) <= |Flat(t)| && t.ks[0] == Flat(t)[Pow3(h - 1) - 1]
  {
    PerfectSize(t.ts[0], h - 1);
    Pow3Positive(h - 1);
    WeaveSplit(t.ks, t.ts, 0);
    assert t.ks[..0] == [] && t.ts[..1] == [t.ts[0]];
    assert Flat(t)[|Flat(t.ts[0])|] == t.ks[0];
  }
}
