/** What any sequence of changes makes of the shape of a tree: trees that differ only in the addresses of their blocks
    stay so under every change, so the shape follows from the sequence alone. */
module ShapeRuns {
  import opened NodeKeys
  import opened Shapes
  import opened ShapeInsertion
  import opened ShapeRemoval

  lemma AlikeParts(ts: seq<Shape>, us: seq<Shape>, i: nat, j: nat)
    requires AlikeAll(ts, us) && i <= j <= |ts|
    ensures AlikeAll(ts[i..j], us[i..j])
  {
    hide Alike;
  }

  lemma AlikeOne(t: Shape, u: Shape)
    requires Alike(t, u)
    ensures AlikeAll([t], [u])
  {
    hide Alike;
  }

  /** A child in the middle exchanged for others. */
  lemma AlikeMiddle(ts: seq<Shape>, us: seq<Shape>, i: nat, j: nat, cs: seq<Shape>, ds: seq<Shape>)
    requires AlikeAll(ts, us) && AlikeAll(cs, ds) && i <= |ts| && j <= |ts|
    ensures AlikeAll(ts[..i] + cs + ts[j..], us[..i] + ds + us[j..])
  {
    hide Alike;
    AlikeParts(ts, us, 0, i);
    AlikeParts(ts, us, j, |ts|);
    AlikeJoin(ts[..i], us[..i], cs, ds);
    AlikeJoin(ts[..i] + cs, us[..i] + ds, ts[j..], us[j..]);
  }

  lemma AlikeChildren(t: Shape, u: Shape)
    requires Alike(t, u) && t.Branch?
    ensures u.Branch? && u.ks == t.ks && AlikeAll(t.ts, u.ts)
  {
  }

  lemma AlikeReplaced(t: Shape, u: Shape, pos: nat, c: Shape, d: Shape)
    requires Alike(t, u) && t.Branch? && pos < |t.ts| && Alike(c, d)
    ensures u.Branch? && pos < |u.ts| && Alike(Replaced(t, pos, c), Replaced(u, pos, d))
  {
    AlikeChildren(t, u);
    AlikeOne(c, d);
    hide Alike;
    AlikeMiddle(t.ts, u.ts, pos, pos + 1, [c], [d]);
    AlikeNode(Replaced(t, pos, c), Replaced(u, pos, d));
  }

  // ---- insertion ----

  ghost predicate AlikeGrowth(r: Growth, s: Growth) {
    if r.Kept? then s.Kept? && Alike(r.t, s.t) else s.Split? && s.up == r.up && Alike(r.l, s.l) && Alike(r.r, s.r)
  }

  lemma AlikeTake(t: Shape, u: Shape, pos: nat, c: Shape, c': Shape, up: NodeKey, d: Shape, d': Shape)
    requires Alike(t, u) && t.Branch? && |t.ts| == |t.ks| + 1 && pos < |t.ts| && |t.ks| <= TREE_NODECOUNT
    requires Alike(c, c') && Alike(d, d')
    ensures u.Branch? && |u.ts| == |u.ks| + 1 && AlikeGrowth(Take(t, pos, c, up, d), Take(u, pos, c', up, d'))
  {
    AlikeChildren(t, u);
    var w, w' := Widened(t, pos, c, up, d), Widened(u, pos, c', up, d');
    assert AlikeAll([c, d], [c', d']);
    AlikeMiddle(t.ts, u.ts, pos, pos + 1, [c, d], [c', d']);
    hide Alike;
    AlikeNode(w, w');
    if |t.ks| == TREE_NODECOUNT {
      HalvesAlike(w, w', EMPTY, EMPTY);
    }
  }

  lemma {:induction false} AlikeInserted(t: Shape, u: Shape, h: nat, lo: nat, k: NodeKey)
    requires Alike(t, u) && Good(t, h, lo)
    ensures AlikeGrowth(InsShape(t, k), InsShape(u, k))
    decreases t
  {
    if t.Branch? {
      var pos := PosOf(t.ks, k);
      if !(pos < |t.ks| && t.ks[pos] == k) {
        AlikeInserted(t.ts[pos], u.ts[pos], h - 1, TREE_NODEMIN, k);
        AlikeDescent(t, u, pos, k);
      }
    }
  }

  lemma AlikeDescent(t: Shape, u: Shape, pos: nat, k: NodeKey)
    requires Alike(t, u) && GoesInto(t, pos, k) && |t.ks| <= TREE_NODECOUNT
    requires AlikeGrowth(InsShape(t.ts[pos], k), InsShape(u.ts[pos], k))
    ensures AlikeGrowth(InsShape(t, k), InsShape(u, k))
  {
    var r, s := InsShape(t.ts[pos], k), InsShape(u.ts[pos], k);
    if r.Kept? {
      assert InsShape(t, k) == Kept(Replaced(t, pos, r.t)) && InsShape(u, k) == Kept(Replaced(u, pos, s.t));
      AlikeReplaced(t, u, pos, r.t, s.t);
    } else {
      assert InsShape(t, k) == Take(t, pos, r.l, r.up, r.r) && InsShape(u, k) == Take(u, pos, s.l, s.up, s.r);
      AlikeTake(t, u, pos, r.l, s.l, r.up, r.r, s.r);
    }
  }

  lemma AlikeAdded(t: Shape, u: Shape, h: nat, k: NodeKey)
    requires Alike(t, u) && Good(t, h, 1)
    ensures Alike(AddShape(t, k), AddShape(u, k))
  {
    AlikeInserted(t, u, h, 1, k);
  }

  // ---- removal ----

  lemma {:induction false} AlikeFlat(t: Shape, u: Shape)
    requires Alike(t, u)
    ensures Flat(t) == Flat(u)
    decreases t, 1
  {
    if t.Branch? {
      AlikeWeave(t.ks, t.ts, u.ts);
    }
  }

  lemma {:induction false} AlikeWeave(ks: seq<NodeKey>, ts: seq<Shape>, us: seq<Shape>)
    requires AlikeAll(ts, us)
    ensures Weave(ks, ts) == Weave(ks, us)
    decreases ts, 0
  {
    if ts != [] {
      AlikeFlat(ts[0], us[0]);
      if ks != [] {
        AlikeWeave(ks[1..], ts[1..], us[1..]);
      }
    }
  }

  lemma AlikePaired(t: Shape, u: Shape, i: nat, l: Shape, l': Shape, k: NodeKey, r: Shape, r': Shape)
    requires Alike(t, u) && t.Branch? && |t.ts| == |t.ks| + 1 && i < |t.ks| && Alike(l, l') && Alike(r, r')
    ensures u.Branch? && |u.ts| == |u.ks| + 1 && i < |u.ks|
    ensures Alike(Paired(t, i, l, k, r), Paired(u, i, l', k, r'))
  {
    AlikeChildren(t, u);
    assert AlikeAll([l, r], [l', r']);
    AlikeMiddle(t.ts, u.ts, i, i + 2, [l, r], [l', r']);
    hide Alike;
    AlikeNode(Paired(t, i, l, k, r), Paired(u, i, l', k, r'));
  }

  lemma AlikeFused(t: Shape, u: Shape, i: nat, c: Shape, c': Shape)
    requires Alike(t, u) && t.Branch? && |t.ts| == |t.ks| + 1 && i < |t.ks| && Alike(c, c')
    ensures u.Branch? && |u.ts| == |u.ks| + 1 && i < |u.ks|
    ensures Alike(Fused(t, i, c), Fused(u, i, c'))
  {
    AlikeChildren(t, u);
    AlikeOne(c, c');
    AlikeMiddle(t.ts, u.ts, i, i + 2, [c], [c']);
    hide Alike;
    AlikeNode(Fused(t, i, c), Fused(u, i, c'));
  }

  lemma AlikeMerged(l: Shape, l': Shape, k: NodeKey, r: Shape, r': Shape)
    requires Alike(l, l') && Alike(r, r') && l.Branch? && r.Branch?
    ensures l'.Branch? && r'.Branch? && Alike(Merged(l, k, r), Merged(l', k, r'))
  {
    AlikeChildren(l, l');
    AlikeChildren(r, r');
    hide Alike;
    AlikeJoin(l.ts, l'.ts, r.ts, r'.ts);
    AlikeNode(Merged(l, k, r), Merged(l', k, r'));
  }

  lemma AlikeRotatedRight(l: Shape, l': Shape, k: NodeKey, r: Shape, r': Shape)
    requires Alike(l, l') && Alike(r, r') && l.Branch? && r.Branch? && |l.ks| > 0 && |l.ts| == |l.ks| + 1
    ensures l'.Branch? && r'.Branch? && l'.ks == l.ks && |l'.ts| == |l'.ks| + 1
    ensures Alike(RightLeft(l), RightLeft(l')) && Alike(RightRight(l, k, r), RightRight(l', k, r'))
  {
    AlikeChildren(l, l');
    AlikeChildren(r, r');
    var m := |l.ks|;
    AlikeOne(l.ts[m], l'.ts[m]);
    hide Alike;
    AlikeParts(l.ts, l'.ts, 0, m);
    AlikeJoin([l.ts[m]], [l'.ts[m]], r.ts, r'.ts);
    AlikeNode(RightLeft(l), RightLeft(l'));
    AlikeNode(RightRight(l, k, r), RightRight(l', k, r'));
  }

  lemma AlikeRotatedLeft(l: Shape, l': Shape, k: NodeKey, r: Shape, r': Shape)
    requires Alike(l, l') && Alike(r, r') && l.Branch? && r.Branch? && |r.ks| > 0 && |r.ts| == |r.ks| + 1
    ensures l'.Branch? && r'.Branch? && r'.ks == r.ks && |r'.ts| == |r'.ks| + 1
    ensures Alike(LeftLeft(l, k, r), LeftLeft(l', k, r')) && Alike(LeftRight(r), LeftRight(r'))
  {
    AlikeChildren(l, l');
    AlikeChildren(r, r');
    AlikeOne(r.ts[0], r'.ts[0]);
    hide Alike;
    AlikeParts(r.ts, r'.ts, 1, |r.ts|);
    AlikeJoin(l.ts, l'.ts, [r.ts[0]], [r'.ts[0]]);
    AlikeNode(LeftLeft(l, k, r), LeftLeft(l', k, r'));
    AlikeNode(LeftRight(r), LeftRight(r'));
  }

  lemma AlikeMended(t: Shape, u: Shape, pos: nat)
    requires Alike(t, u) && Mendable(t, pos)
    ensures Mendable(u, pos) && Alike(Mended(t, pos), Mended(u, pos))
  {
    var i := PairAt(pos);
    AlikeChildren(t, u);
    var l, r, l', r', k := t.ts[i], t.ts[i + 1], u.ts[i], u.ts[i + 1], t.ks[i];
    hide Alike;
    AlikeChildren(l, l');
    AlikeChildren(r, r');
    hide Paired;
    hide Fused;
    hide Merged;
    hide RightLeft;
    hide RightRight;
    hide LeftLeft;
    hide LeftRight;
    if pos > 0 && |l.ks| > TREE_NODEMIN {
      AlikeRotatedRight(l, l', k, r, r');
      AlikePaired(t, u, i, RightLeft(l), RightLeft(l'), l.ks[|l.ks| - 1], RightRight(l, k, r), RightRight(l', k, r'));
    } else if pos == 0 && |r.ks| > TREE_NODEMIN {
      AlikeRotatedLeft(l, l', k, r, r');
      AlikePaired(t, u, i, LeftLeft(l, k, r), LeftLeft(l', k, r'), r.ks[0], LeftRight(r), LeftRight(r'));
    } else {
      AlikeMerged(l, l', k, r, r');
      AlikeFused(t, u, i, Merged(l, k, r), Merged(l', k, r'));
    }
  }

  lemma AlikeMendedIfShort(t: Shape, u: Shape, pos: nat)
    requires Alike(t, u) && t.Branch? && pos < |t.ts|
    ensures u.Branch? && pos < |u.ts| && Alike(MendedIfShort(t, pos), MendedIfShort(u, pos))
  {
    assert Short(t.ts[pos]) == Short(u.ts[pos]);
    if Mendable(t, pos) {
      AlikeMended(t, u, pos);
    } else if Mendable(u, pos) {
      AlikeBack(t, u);
      AlikeMended(u, t, pos);
    }
    hide Mended;
  }

  lemma {:induction false} AlikeBack(t: Shape, u: Shape)
    requires Alike(t, u)
    ensures Alike(u, t)
  {
    if t.Branch? {
      forall i | 0 <= i < |t.ts| ensures Alike(u.ts[i], t.ts[i]) {
        AlikeBack(t.ts[i], u.ts[i]);
      }
    }
  }

  lemma {:induction false} AlikeThrough(t: Shape, u: Shape, v: Shape)
    requires Alike(t, u) && Alike(u, v)
    ensures Alike(t, v)
  {
    if t.Branch? {
      forall i | 0 <= i < |t.ts| ensures Alike(t.ts[i], v.ts[i]) {
        AlikeThrough(t.ts[i], u.ts[i], v.ts[i]);
      }
    }
  }

  lemma {:induction false} AlikeRemoved(t: Shape, u: Shape, k: NodeKey)
    requires Alike(t, u)
    ensures Alike(RemShape(t, k), RemShape(u, k))
    decreases t
  {
    if t.Branch? && |t.ts| == |t.ks| + 1 {
      AlikeChildren(t, u);
      var pos := PosOf(t.ks, k);
      if pos < |t.ks| && t.ks[pos] == k {
        AlikeFlat(t.ts[pos + 1], u.ts[pos + 1]);
        if t.ts[pos + 1].Nil? || Flat(t.ts[pos + 1]) == [] {
          AlikeFused(t, u, pos, t.ts[pos], u.ts[pos]);
        } else {
          var s := Flat(t.ts[pos + 1])[0];
          AlikeRemoved(t.ts[pos + 1], u.ts[pos + 1], s);
          AlikePromoted(t, u, pos, s, RemShape(t.ts[pos + 1], s), RemShape(u.ts[pos + 1], s));
        }
      } else {
        AlikeRemoved(t.ts[pos], u.ts[pos], k);
        AlikeGaveUp(t, u, pos, RemShape(t.ts[pos], k), RemShape(u.ts[pos], k));
      }
    }
  }

  lemma AlikePromoted(t: Shape, u: Shape, pos: nat, s: NodeKey, c: Shape, d: Shape)
    requires Alike(t, u) && t.Branch? && |t.ts| == |t.ks| + 1 && pos < |t.ks| && Alike(c, d)
    ensures u.Branch? && |u.ts| == |u.ks| + 1 && pos < |u.ks|
    ensures Alike(MendedIfShort(Replaced(Rekeyed(t, pos, s), pos + 1, c), pos + 1),
      MendedIfShort(Replaced(Rekeyed(u, pos, s), pos + 1, d), pos + 1))
  {
    AlikeChildren(t, u);
    hide Alike;
    AlikeNode(Rekeyed(t, pos, s), Rekeyed(u, pos, s));
    hide MendedIfShort;
    AlikeGaveUp(Rekeyed(t, pos, s), Rekeyed(u, pos, s), pos + 1, c, d);
  }

  lemma AlikeGaveUp(t: Shape, u: Shape, pos: nat, c: Shape, d: Shape)
    requires Alike(t, u) && t.Branch? && pos < |t.ts| && Alike(c, d)
    ensures u.Branch? && pos < |u.ts|
    ensures Alike(MendedIfShort(Replaced(t, pos, c), pos), MendedIfShort(Replaced(u, pos, d), pos))
  {
    AlikeReplaced(t, u, pos, c, d);
    AlikeMendedIfShort(Replaced(t, pos, c), Replaced(u, pos, d), pos);
    hide MendedIfShort;
    hide Alike;
  }

  lemma AlikeRemovedShape(t: Shape, u: Shape, k: NodeKey)
    requires Alike(t, u)
    ensures Alike(RemovedShape(t, k), RemovedShape(u, k))
  {
    AlikeRemoved(t, u, k);
    hide RemShape;
  }
}
