/** Node blocks (struct node_instance) and what it means that linked blocks encode a tree. */
module TreeNodes {
  import opened NodeKeys
  import opened Shapes

  /** keys[] and childsi[] are fixed-size; only the first `count` keys and `count + 1` links are in use. */
  datatype Node = Node(count: nat, keys: seq<NodeKey>, childsi: seq<Ref>) {
    predicate Sized() {
      |keys| == TREE_NODECOUNT && |childsi| == TREE_NODECOUNT + 1 && count <= TREE_NODECOUNT
    }

    ghost function Ks(): (r: seq<NodeKey>)
      requires Sized()
    {
      keys[..count]
    }

    ghost function Cs(): (r: seq<Ref>)
      requires Sized()
    {
      childsi[..count + 1]
    }
  }

  lemma InUse(n: Node)
    requires n.Sized()
    ensures |n.Ks()| == n.count && |n.Cs()| == n.count + 1 && n.count <= TREE_NODECOUNT
  {
  }

  type Blocks = map<Ref, Node>

  /** Block `at` holds the keys `ks` and the links `cs`. */
  ghost predicate Holds(n: Blocks, at: Ref, ks: seq<NodeKey>, cs: seq<Ref>) {
    at in n && n[at].Sized() && n[at].Ks() == ks && n[at].Cs() == cs
  }

  /** Only the block `at` was written. */
  ghost predicate Rewritten(n1: Blocks, n2: Blocks, at: Ref) {
    at in n1 && at in n2 && n2 == n1[at := n2[at]] && n2[at].Sized()
  }

  /** What a shift to the right by one, and one to the left, make of the part in use. */
  lemma ShiftedRight<T>(was: seq<T>, now: seq<T>, n: nat, pos: nat, x: T)
    requires pos <= n <= |was| && n < |now| && now[pos] == x
    requires forall j :: 0 <= j < pos ==> now[j] == was[j]
    requires forall j :: pos < j <= n ==> now[j] == was[j - 1]
    ensures now[..n + 1] == was[..n][..pos] + [x] + was[..n][pos..]
  {
  }

  lemma ShiftedLeft<T>(was: seq<T>, now: seq<T>, n: nat, pos: nat)
    requires pos < n <= |was| && n - 1 <= |now|
    requires forall j :: 0 <= j < pos ==> now[j] == was[j]
    requires forall j :: pos <= j < n - 1 ==> now[j] == was[j + 1]
    ensures now[..n - 1] == was[..n][..pos] + was[..n][pos + 1..]
  {
  }

  /** Cutting a sequence into which `x` was put at `pos`, behind and in front of that place. */
  lemma CutBehind<T>(s: seq<T>, cut: nat, pos: nat, x: T, lower: seq<T>, upper: seq<T>, all: seq<T>)
    requires pos <= cut <= |s| && lower == s[..cut] && upper == s[cut..] && all == s[..pos] + [x] + s[pos..]
    ensures lower[..pos] + [x] + lower[pos..] == all[..cut + 1]
    ensures upper == all[cut + 1..]
  {
  }

  lemma CutInFront<T>(s: seq<T>, cut: nat, pos: nat, x: T, lower: seq<T>, upper: seq<T>, all: seq<T>)
    requires cut <= pos <= |s| && lower == s[..cut] && upper == s[cut..] && all == s[..pos] + [x] + s[pos..]
    ensures lower == all[..cut]
    ensures upper[..pos - cut] + [x] + upper[pos - cut..] == all[cut..]
  {
  }

  lemma TailInserted<T>(s: seq<T>, pos: nat, x: T)
    requires 1 <= pos <= |s|
    ensures (s[..pos] + [x] + s[pos..])[1..] == s[1..][..pos - 1] + [x] + s[1..][pos - 1..]
  {
  }

  /** The middle key goes up, and the link behind it becomes the first of the upper half. */
  lemma HalvesCut<S, T>(ks: seq<S>, cs: seq<T>, lower: seq<T>, upper: seq<T>)
    requires |ks| == TREE_NODECOUNT + 1 && |cs| == TREE_NODECOUNT + 2
    requires lower == cs[..TREE_NODEMIN + 2] && |upper| > 0 && upper[1..] == cs[TREE_NODEMIN + 2..]
    ensures ks[..TREE_NODEMIN + 1][..TREE_NODEMIN] == ks[..TREE_NODEMIN]
    ensures ks[..TREE_NODEMIN + 1][TREE_NODEMIN] == ks[TREE_NODEMIN]
    ensures lower[..TREE_NODEMIN + 1] == cs[..TREE_NODEMIN + 1]
    ensures [lower[TREE_NODEMIN + 1]] + upper[1..] == cs[TREE_NODEMIN + 1..]
  {
  }

  /** The blocks reachable from the top of `t` hold exactly the tree `t`. */
  ghost predicate Encoded(nodes: Blocks, t: Shape)
    decreases t
  {
    match t
    case Nil => true
    case Branch(at, ks, ts) =>
      at != EMPTY && at in nodes && nodes[at].Sized() && |ts| == |ks| + 1
      && nodes[at].Ks() == ks && nodes[at].Cs() == Roots(ts)
      && Kids(nodes, ts)
  }

  ghost predicate Kids(nodes: Blocks, ts: seq<Shape>)
    decreases ts
  {
    forall i :: 0 <= i < |ts| ==> Encoded(nodes, ts[i])
  }

  lemma KidsJoin(nodes: Blocks, ts: seq<Shape>, us: seq<Shape>)
    ensures Kids(nodes, ts + us) <==> Kids(nodes, ts) && Kids(nodes, us)
  {
    if Kids(nodes, ts + us) {
      forall i | 0 <= i < |ts| ensures Encoded(nodes, ts[i]) { assert (ts + us)[i] == ts[i]; }
      forall i | 0 <= i < |us| ensures Encoded(nodes, us[i]) { assert (ts + us)[|ts| + i] == us[i]; }
    }
  }

  lemma NodeOf(nodes: Blocks, t: Shape)
    requires Encoded(nodes, t) && t.Branch?
    ensures t.at != EMPTY && Holds(nodes, t.at, t.ks, Roots(t.ts)) && |t.ts| == |t.ks| + 1 && Kids(nodes, t.ts)
  {
  }

  lemma AsNode(nodes: Blocks, t: Shape)
    requires t.Branch? && t.at != EMPTY && Holds(nodes, t.at, t.ks, Roots(t.ts)) && |t.ts| == |t.ks| + 1
    requires Kids(nodes, t.ts)
    ensures Encoded(nodes, t)
  {
  }

  lemma KidsOne(nodes: Blocks, t: Shape)
    ensures Kids(nodes, [t]) <==> Encoded(nodes, t)
  {
    hide Encoded;
    assert [t][0] == t;
  }

  lemma KidsAround(nodes: Blocks, tl: seq<Shape>, c: Shape, tr: seq<Shape>)
    ensures Kids(nodes, tl + [c] + tr) <==> Kids(nodes, tl) && Encoded(nodes, c) && Kids(nodes, tr)
  {
    KidsJoin(nodes, tl + [c], tr);
    KidsJoin(nodes, tl, [c]);
    KidsOne(nodes, c);
  }

  lemma KidsPair(nodes: Blocks, tl: seq<Shape>, c: Shape, d: Shape, tr: seq<Shape>)
    ensures Kids(nodes, tl + [c, d] + tr) <==>
      Kids(nodes, tl) && Encoded(nodes, c) && Encoded(nodes, d) && Kids(nodes, tr)
  {
    KidsAround(nodes, tl, c, [d] + tr);
    KidsJoin(nodes, [d], tr);
    KidsOne(nodes, d);
    assert tl + [c, d] + tr == tl + [c] + ([d] + tr);
  }

  ghost predicate Agree(n1: Blocks, n2: Blocks, b: multiset<Ref>) {
    forall r :: r in b ==> r in n1 && r in n2 && n1[r] == n2[r]
  }

  /** Changing blocks outside a tree leaves it as it was. */
  lemma {:induction false} EncodedFrame(n1: Blocks, n2: Blocks, t: Shape)
    requires Encoded(n1, t) && Agree(n1, n2, Bag(t))
    ensures Encoded(n2, t)
    decreases t
  {
    if t.Branch? {
      KidsFrame(n1, n2, t.ts);
    }
  }

  lemma {:induction false} KidsFrame(n1: Blocks, n2: Blocks, ts: seq<Shape>)
    requires Kids(n1, ts) && Agree(n1, n2, Bags(ts))
    ensures Kids(n2, ts)
    decreases ts
  {
    if ts != [] {
      hide Encoded;
      hide Kids;
      KidsFirst(n1, ts);
      KidsFirst(n2, ts);
      EncodedFrame(n1, n2, ts[0]);
      KidsFrame(n1, n2, ts[1..]);
    }
  }

  lemma KidsFirst(nodes: Blocks, ts: seq<Shape>)
    requires ts != []
    ensures Kids(nodes, ts) <==> Encoded(nodes, ts[0]) && Kids(nodes, ts[1..])
  {
    assert ts == [ts[0]] + ts[1..];
    KidsJoin(nodes, [ts[0]], ts[1..]);
    KidsOne(nodes, ts[0]);
  }

  /** Every block of an encoded tree is allocated. */
  lemma {:induction false} BagAllocated(nodes: Blocks, t: Shape)
    requires Encoded(nodes, t)
    ensures forall r :: r in Bag(t) ==> r in nodes && r != EMPTY
    decreases t
  {
    if t.Branch? {
      BagsAllocated(nodes, t.ts);
    }
  }

  lemma {:induction false} BagsAllocated(nodes: Blocks, ts: seq<Shape>)
    requires Kids(nodes, ts)
    ensures forall r :: r in Bags(ts) ==> r in nodes && r != EMPTY
    decreases ts
  {
    if ts != [] {
      BagAllocated(nodes, ts[0]);
      BagsAllocated(nodes, ts[1..]);
    }
  }

  /** Blocks of `ts` survive any change to blocks outside `ts`. */
  lemma KidsKept(n1: Blocks, n2: Blocks, ts: seq<Shape>, changed: set<Ref>)
    requires Kids(n1, ts)
    requires forall r :: r in n1 && r !in changed ==> r in n2 && n2[r] == n1[r]
    requires forall r :: r in changed ==> r !in Bags(ts)
    ensures Kids(n2, ts)
  {
    BagsAllocated(n1, ts);
    KidsFrame(n1, n2, ts);
  }

  /** From `n0` to `n1` some blocks were allocated: the tree(s) that had the blocks `b0`
      have the blocks `b1`, and no other block changed. */
  ghost predicate Grown(n0: Blocks, n1: Blocks, b0: multiset<Ref>, b1: multiset<Ref>) {
    n0.Keys <= n1.Keys
    && (forall r :: b1[r] == b0[r] + if r in n1 && r !in n0 then 1 else 0)
    && forall r :: r in n0 && r !in b0 ==> n1[r] == n0[r]
  }

  /** Likewise when blocks were freed. */
  ghost predicate Shrunk(n0: Blocks, n1: Blocks, b0: multiset<Ref>, b1: multiset<Ref>) {
    n1.Keys <= n0.Keys
    && (forall r :: b0[r] == b1[r] + if r in n0 && r !in n1 then 1 else 0)
    && forall r :: r in n0 && r !in b0 ==> r in n1 && n1[r] == n0[r]
  }

  /** In a tree that reaches each block once, a child shares no block with its parent or its siblings. */
  lemma SiblingsApart(n: Blocks, at: Ref, ks: seq<NodeKey>, tl: seq<Shape>, c: Shape, tr: seq<Shape>)
    requires Encoded(n, Branch(at, ks, tl + [c] + tr)) && Sole(Bag(Branch(at, ks, tl + [c] + tr)))
    ensures at in n && Kids(n, tl) && Encoded(n, c) && Kids(n, tr)
    ensures at !in Bag(c) && at !in Bags(tl) && at !in Bags(tr)
    ensures forall r :: r in Bags(tl) || r in Bags(tr) ==> r in n && r !in Bag(c)
  {
    var b := Bag(Branch(at, ks, tl + [c] + tr));
    assert b == multiset{at} + (Bags(tl) + Bag(c) + Bags(tr)) by { BagsAround(tl, c, tr); }
    NodeOf(n, Branch(at, ks, tl + [c] + tr));
    hide Encoded;
    hide Kids;
    hide Bag;
    hide Bags;
    KidsAround(n, tl, c, tr);
    BagsAllocated(n, tl);
    BagsAllocated(n, tr);
    assert b[at] <= 1;
    forall r | r in Bags(tl) || r in Bags(tr) ensures r !in Bag(c) {
      assert b[r] <= 1;
    }
  }

  /** What the change of one child leaves of its parent and its siblings. */
  lemma SiblingsGrown(n0: Blocks, n1: Blocks, at: Ref, ks: seq<NodeKey>, tl: seq<Shape>, c: Shape, tr: seq<Shape>,
                      b1: multiset<Ref>)
    requires Encoded(n0, Branch(at, ks, tl + [c] + tr)) && Sole(Bag(Branch(at, ks, tl + [c] + tr)))
    requires Grown(n0, n1, Bag(c), b1)
    ensures at in n1 && n1[at] == n0[at]
    ensures Kids(n1, tl) && Kids(n1, tr)
    ensures at !in b1 && at !in Bags(tl) && at !in Bags(tr)
  {
    hide Encoded;
    hide Kids;
    hide Bag;
    hide Bags;
    hide Sole;
    SiblingsApart(n0, at, ks, tl, c, tr);
    KidsFrame(n0, n1, tl);
    KidsFrame(n0, n1, tr);
  }

  lemma {:induction false} FreshExists(s: set<nat>)
    ensures exists n: nat :: n !in s
  {
    if s == {} {
      assert 0 !in s;
    } else {
      var m := MaxOf(s);
      assert m + 1 !in s;
    }
  }

  lemma {:induction false} MaxOf(s: set<nat>) returns (m: nat)
    requires s != {}
    ensures m in s && forall x :: x in s ==> x <= m
    decreases |s|
  {
    var x :| x in s;
    var r := s - {x};
    m := x;
    if r != {} {
      var y := MaxOf(r);
      m := if y > x then y else x;
    }
    assert forall z :: z in s ==> z == x || z in r;
  }

  lemma FreshRef(nodes: Blocks)
    ensures exists r: Ref :: r !in nodes && r != EMPTY
  {
    var used := (set r | r in nodes.Keys :: r.offset) + {0};
    FreshExists(used);
    var n: nat :| n !in used;
    assert Ref(0, 0, n) !in nodes && Ref(0, 0, n) != EMPTY;
  }

  /** The top block of an encoded tree, slot by slot. */
  lemma TopBlock(n: Blocks, t: Shape, h: nat, lo: nat)
    requires Encoded(n, t) && Good(t, h, lo)
    ensures Root(t) == EMPTY ==> t.Nil? && h == 0 && Flat(t) == []
    ensures Root(t) != EMPTY ==>
      && t.Branch? && h > 0 && |t.ts| == |t.ks| + 1 && Root(t) in n && n[Root(t)].Sized() && n[Root(t)].count == |t.ks|
      && (forall i :: 0 <= i < |t.ks| ==> n[Root(t)].keys[i] == t.ks[i])
      && (forall i :: 0 <= i < |t.ts| ==>
           n[Root(t)].childsi[i] == Root(t.ts[i]) && Encoded(n, t.ts[i]) && Good(t.ts[i], h - 1, TREE_NODEMIN))
  {
    if t.Branch? {
      assert Kids(n, t.ts);
      forall i | 0 <= i < |t.ks| ensures n[t.at].keys[i] == t.ks[i] { assert n[t.at].Ks()[i] == t.ks[i]; }
      forall i | 0 <= i < |t.ts| ensures n[t.at].childsi[i] == Root(t.ts[i]) {
        assert n[t.at].Cs()[i] == Roots(t.ts)[i];
      }
    }
  }

  lemma LinkTo(n: Blocks, t: Shape, pos: nat)
    requires t.Branch? && Encoded(n, t) && pos < |t.ts|
    ensures n[t.at].childsi[pos] == Root(t.ts[pos]) && Encoded(n, t.ts[pos])
    ensures n[t.at].Ks() == t.ks && (pos < |t.ks| ==> n[t.at].keys[pos] == t.ks[pos])
  {
    assert n[t.at].Cs()[pos] == Roots(t.ts)[pos];
    assert Kids(n, t.ts);
    assert pos < |t.ks| ==> n[t.at].Ks()[pos] == t.ks[pos];
  }
}
