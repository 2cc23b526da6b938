/** The tree that a set of linked node blocks stands for: its keys in order, the
    blocks it is made of, its occupancy, and the transformations (split, rotation,
    merge) that the index performs on it. */
module Shapes {
  import opened NodeKeys

  /** struct node_instance_offset: the address of a node block. */
  datatype Ref = Ref(category_id: nat, page_id: nat, offset: nat)

  const EMPTY := Ref(0, 0, 0)
  const TREE_NODECOUNT := 4
  const TREE_NODEMIN := TREE_NODECOUNT / 2

  datatype Shape = Nil | Branch(at: Ref, ks: seq<NodeKey>, ts: seq<Shape>)

  ghost function Root(t: Shape): (r: Ref) {
    if t.Nil? then EMPTY else t.at
  }

  ghost function Roots(ts: seq<Shape>): (r: seq<Ref>) {
    seq(|ts|, i requires 0 <= i < |ts| => Root(ts[i]))
  }

  /** The keys of the tree in order. */
  ghost function Flat(t: Shape): (r: seq<NodeKey>)
    decreases t
  {
    match t
    case Nil => []
    case Branch(_, ks, ts) => Weave(ks, ts)
  }

  /** The keys of `ts`, separated by `ks`. */
  ghost function Weave(ks: seq<NodeKey>, ts: seq<Shape>): (r: seq<NodeKey>)
    decreases ts
  {
    if ts == [] then []
    else if ks == [] then Flat(ts[0])
    else Flat(ts[0]) + [ks[0]] + Weave(ks[1..], ts[1..])
  }

  /** The blocks of the tree, each with the number of times it is reached. */
  ghost function Bag(t: Shape): (r: multiset<Ref>) {
    match t
    case Nil => multiset{}
    case Branch(at, _, ts) => multiset{at} + Bags(ts)
  }

  ghost function Bags(ts: seq<Shape>): (r: multiset<Ref>) {
    if ts == [] then multiset{} else Bag(ts[0]) + Bags(ts[1..])
  }

  /** All leaves at depth `h`, at least `lo` keys in the top node, 2..4 keys below. */
  ghost predicate Good(t: Shape, h: nat, lo: nat) {
    match t
    case Nil => h == 0
    case Branch(_, ks, ts) =>
      h > 0 && lo <= |ks| <= TREE_NODECOUNT && |ts| == |ks| + 1
      && forall i :: 0 <= i < |ts| ==> Good(ts[i], h - 1, TREE_NODEMIN)
  }

  lemma {:induction false} GoodWeaken(t: Shape, h: nat, lo: nat, lo': nat)
    requires Good(t, h, lo) && lo' <= lo
    ensures Good(t, h, lo')
  {
  }

  // ---- keys in order ----

  lemma {:induction false} WeaveJoin(ks: seq<NodeKey>, ts: seq<Shape>, k: NodeKey, ks': seq<NodeKey>, ts': seq<Shape>)
    requires |ts| == |ks| + 1 && |ts'| == |ks'| + 1
    ensures Weave(ks + [k] + ks', ts + ts') == Weave(ks, ts) + [k] + Weave(ks', ts')
  {
    var kk, tt := ks + [k] + ks', ts + ts';
    if ks == [] {
      assert kk[1..] == ks' && tt[1..] == ts';
    } else {
      assert kk[1..] == ks[1..] + [k] + ks' && tt[1..] == ts[1..] + ts';
      WeaveJoin(ks[1..], ts[1..], k, ks', ts');
    }
  }

  lemma WeaveSplit(ks: seq<NodeKey>, ts: seq<Shape>, i: nat)
    requires |ts| == |ks| + 1 && i < |ks|
    ensures Weave(ks, ts) == Weave(ks[..i], ts[..i + 1]) + [ks[i]] + Weave(ks[i + 1..], ts[i + 1..])
  {
    var kl, kr, tl, tr := ks[..i], ks[i + 1..], ts[..i + 1], ts[i + 1..];
    assert ks == kl + [ks[i]] + kr;
    assert ts == tl + tr;
    WeaveJoin(kl, tl, ks[i], kr, tr);
  }

  /** `ts` with a key after each, and `ts` with a key before each. */
  ghost function Lead(ks: seq<NodeKey>, ts: seq<Shape>): (r: seq<NodeKey>)
    requires |ks| == |ts|
  {
    if ts == [] then [] else Flat(ts[0]) + [ks[0]] + Lead(ks[1..], ts[1..])
  }

  ghost function Trail(ks: seq<NodeKey>, ts: seq<Shape>): (r: seq<NodeKey>)
    requires |ks| == |ts|
  {
    if ts == [] then [] else [ks[0]] + Flat(ts[0]) + Trail(ks[1..], ts[1..])
  }

  lemma {:induction false} WeaveTrail(ks: seq<NodeKey>, c: Shape, ts: seq<Shape>)
    requires |ks| == |ts|
    ensures Weave(ks, [c] + ts) == Flat(c) + Trail(ks, ts)
    decreases |ts|
  {
    assert ([c] + ts)[1..] == ts;
    if ts != [] {
      WeaveTrail(ks[1..], ts[0], ts[1..]);
      assert ts == [ts[0]] + ts[1..];
    }
  }

  /** A child contributes its keys between those of its left and right neighbours. */
  lemma {:induction false} WeaveAround(kl: seq<NodeKey>, tl: seq<Shape>, c: Shape, kr: seq<NodeKey>, tr: seq<Shape>)
    requires |kl| == |tl| && |kr| == |tr|
    ensures Weave(kl + kr, tl + [c] + tr) == Lead(kl, tl) + Flat(c) + Trail(kr, tr)
  {
    if tl == [] {
      assert kl + kr == kr && tl + [c] + tr == [c] + tr;
      WeaveTrail(kr, c, tr);
    } else {
      assert (kl + kr)[1..] == kl[1..] + kr;
      assert (tl + [c] + tr)[1..] == tl[1..] + [c] + tr;
      WeaveAround(kl[1..], tl[1..], c, kr, tr);
    }
  }

  /** Two neighbouring children separated by `k`. */
  lemma {:induction false} WeavePair(kl: seq<NodeKey>, tl: seq<Shape>, c: Shape, k: NodeKey, d: Shape, kr: seq<NodeKey>,
                                     tr: seq<Shape>)
    requires |kl| == |tl| && |kr| == |tr|
    ensures Weave(kl + [k] + kr, tl + [c, d] + tr) == Lead(kl, tl) + (Flat(c) + [k] + Flat(d)) + Trail(kr, tr)
  {
    var kk, tt := [k] + kr, [d] + tr;
    WeaveAround(kl, tl, c, kk, tt);
    assert kl + [k] + kr == kl + kk;
    assert tl + [c, d] + tr == tl + [c] + tt;
    assert kk[1..] == kr && tt[1..] == tr;
  }

  lemma {:induction false} LeadEnds(kl: seq<NodeKey>, tl: seq<Shape>)
    requires |kl| == |tl| > 0
    ensures |Lead(kl, tl)| > 0 && Lead(kl, tl)[|Lead(kl, tl)| - 1] == kl[|kl| - 1]
  {
    if |tl| > 1 {
      LeadEnds(kl[1..], tl[1..]);
    }
  }

  lemma {:induction false} LeadJoin(kl: seq<NodeKey>, tl: seq<Shape>, k: NodeKey, c: Shape)
    requires |kl| == |tl|
    ensures Lead(kl + [k], tl + [c]) == Lead(kl, tl) + Flat(c) + [k]
  {
    if tl == [] {
      assert ([k])[1..] == [] && ([c])[1..] == [];
    } else {
      assert (kl + [k])[1..] == kl[1..] + [k] && (tl + [c])[1..] == tl[1..] + [c];
      LeadJoin(kl[1..], tl[1..], k, c);
    }
  }

  lemma LeadStep(t: Shape, n: nat)
    requires t.Branch? && |t.ts| == |t.ks| + 1 && n < |t.ks|
    ensures |Lead(t.ks[..n + 1], t.ts[..n + 1])| == |Lead(t.ks[..n], t.ts[..n])| + |Flat(t.ts[n])| + 1
  {
    assert t.ks[..n + 1] == t.ks[..n] + [t.ks[n]] && t.ts[..n + 1] == t.ts[..n] + [t.ts[n]];
    LeadJoin(t.ks[..n], t.ts[..n], t.ks[n], t.ts[n]);
  }

  lemma LeadWhole(t: Shape)
    requires t.Branch? && |t.ts| == |t.ks| + 1
    ensures Flat(t) == Lead(t.ks[..|t.ks|], t.ts[..|t.ks|]) + Flat(t.ts[|t.ks|])
  {
    var n := |t.ks|;
    WeaveAround(t.ks[..n], t.ts[..n], t.ts[n], [], []);
    assert t.ks == t.ks[..n] + [] && t.ts == t.ts[..n] + [t.ts[n]] + [];
  }

  // ---- blocks ----

  lemma {:induction false} BagsJoin(ts: seq<Shape>, us: seq<Shape>)
    ensures Bags(ts + us) == Bags(ts) + Bags(us)
  {
    if ts == [] {
      assert ts + us == us;
    } else {
      assert (ts + us)[1..] == ts[1..] + us;
      BagsJoin(ts[1..], us);
    }
  }

  lemma BagsOne(t: Shape)
    ensures Bags([t]) == Bag(t)
  {
    assert [t][1..] == [];
  }

  lemma BagsAround(tl: seq<Shape>, c: Shape, tr: seq<Shape>)
    ensures Bags(tl + [c] + tr) == Bags(tl) + Bag(c) + Bags(tr)
  {
    BagsJoin(tl + [c], tr);
    BagsJoin(tl, [c]);
    BagsOne(c);
  }

  lemma BagsPair(tl: seq<Shape>, c: Shape, d: Shape, tr: seq<Shape>)
    ensures Bags(tl + [c, d] + tr) == Bags(tl) + Bag(c) + Bag(d) + Bags(tr)
  {
    BagsJoin(tl + [c, d], tr);
    BagsJoin(tl, [c, d]);
    assert [c, d][1..] == [d];
    BagsOne(d);
  }

  ghost predicate Sole(b: multiset<Ref>) {
    forall r :: b[r] <= 1
  }

  // ---- where a key is ----

  lemma SortedParts(s: seq<NodeKey>, p: seq<NodeKey>, x: seq<NodeKey>, q: seq<NodeKey>)
    requires Sorted(s) && s == p + x + q
    ensures Sorted(p) && Sorted(x) && Sorted(q)
    ensures forall a, b :: a in p && b in x + q ==> Less(a, b)
    ensures forall a, b :: a in p + x && b in q ==> Less(a, b)
  {
    forall a, b | a in p && b in x + q ensures Less(a, b) {
      var i :| 0 <= i < |p| && p[i] == a;
      var j :| 0 <= j < |x + q| && (x + q)[j] == b;
      assert s[i] == a && s[|p| + j] == b;
    }
    forall a, b | a in p + x && b in q ensures Less(a, b) {
      var i :| 0 <= i < |p + x| && (p + x)[i] == a;
      var j :| 0 <= j < |q| && q[j] == b;
      assert s[i] == a && s[|p + x| + j] == b;
    }
    assert forall i :: 0 <= i < |p| ==> p[i] == s[i];
    assert forall i :: 0 <= i < |x| ==> x[i] == s[|p| + i];
    assert forall i :: 0 <= i < |q| ==> q[i] == s[|p| + |x| + i];
  }

  /** If `k` lies between the keys on both sides of a child, only that child can hold it. */
  lemma Locate(kl: seq<NodeKey>, tl: seq<Shape>, c: Shape, kr: seq<NodeKey>, tr: seq<Shape>, k: NodeKey)
    requires |kl| == |tl| && |kr| == |tr|
    requires Sorted(Weave(kl + kr, tl + [c] + tr))
    requires kl != [] ==> Less(kl[|kl| - 1], k)
    requires kr != [] ==> Less(k, kr[0])
    ensures AllLess(Lead(kl, tl), k) && AllMore(Trail(kr, tr), k)
    ensures k !in Lead(kl, tl) && k !in Trail(kr, tr)
    ensures Sorted(Flat(c))
    ensures k in Weave(kl + kr, tl + [c] + tr) <==> k in Flat(c)
  {
    WeaveAround(kl, tl, c, kr, tr);
    var p, x, q := Lead(kl, tl), Flat(c), Trail(kr, tr);
    SortedParts(Weave(kl + kr, tl + [c] + tr), p, x, q);
    if p != [] {
      LeadEnds(kl, tl);
      forall j | 0 <= j < |p| ensures Less(p[j], k) {
        CompareIsStrictOrder(p[j], p[|p| - 1], k);
      }
    }
    forall j | 0 <= j < |q| ensures Less(k, q[j]) {
      CompareIsStrictOrder(k, q[0], q[j]);
    }
    CompareIsStrictOrder(k, k, k);
  }

  /** A key of the top node is a key of the tree. */
  lemma KeyHere(t: Shape, pos: nat)
    requires t.Branch? && |t.ts| == |t.ks| + 1 && pos < |t.ks|
    ensures t.ks[pos] in Flat(t)
  {
    WeaveSplit(t.ks, t.ts, pos);
  }

  // ---- height ----

  ghost function Pow3(n: nat): (r: nat) {
    if n == 0 then 1 else 3 * Pow3(n - 1)
  }

  lemma {:induction false} Pow3Positive(n: nat)
    ensures Pow3(n) >= 1
  {
    if n > 0 { Pow3Positive(n - 1); }
  }

  lemma {:induction false} Pow3Grows(m: nat, n: nat)
    requires m <= n
    ensures Pow3(m) <= Pow3(n)
    decreases n
  {
    if m < n {
      Pow3Grows(m, n - 1);
      Pow3Positive(n - 1);
    }
  }

  /** A node with at least `lo` keys above `h - 1` further levels holds this many keys. */
  lemma {:induction false} HeightBound(t: Shape, h: nat, lo: nat)
    requires Good(t, h, lo)
    ensures h > 0 ==> |Flat(t)| + 1 >= (lo + 1) * Pow3(h - 1)
    decreases t
  {
    if t.Branch? {
      WeaveBound(t.ks, t.ts, h - 1);
      Pow3Positive(h - 1);
      assert (|t.ks| + 1) * Pow3(h - 1) >= (lo + 1) * Pow3(h - 1);
    }
  }

  /** A tree with more levels than `n - 1` below its root holds at least 2 * 3^(n - 1) - 1 keys. */
  lemma LevelsBound(t: Shape, h: nat, n: nat)
    requires Good(t, h, 1) && 0 < n <= h
    ensures 2 * Pow3(n - 1) <= |Flat(t)| + 1
  {
    HeightBound(t, h, 1);
    Pow3Grows(n - 1, h - 1);
  }

  lemma {:induction false} WeaveBound(ks: seq<NodeKey>, ts: seq<Shape>, h: nat)
    requires |ts| == |ks| + 1
    requires forall i :: 0 <= i < |ts| ==> Good(ts[i], h, TREE_NODEMIN)
    ensures |Weave(ks, ts)| + 1 >= |ts| * Pow3(h)
    decreases ts
  {
    HeightBound(ts[0], h, TREE_NODEMIN);
    assert |Flat(ts[0])| + 1 >= Pow3(h);
    if ks != [] {
      WeaveBound(ks[1..], ts[1..], h);
      assert |ts| * Pow3(h) == Pow3(h) + |ts[1..]| * Pow3(h);
    }
  }
}
