/** The keys that the search by hash hands to its callback, in the order it does so, and
    which keys those are. `stop(k)` says that the callback ends the search at `k`. */
module HashVisits {
  import opened NodeKeys
  import opened ShapeInsertion
  import opened Shapes

  /** The first key whose hash is not below `hash`. */
  ghost function FirstAtLeast(ks: seq<NodeKey>, hash: nat): (p: nat)
    ensures p <= |ks|
    ensures forall i :: 0 <= i < p ==> ks[i].keyhash < hash
    ensures p < |ks| ==> ks[p].keyhash >= hash
  {
    if ks == [] || ks[0].keyhash >= hash then 0 else 1 + FirstAtLeast(ks[1..], hash)
  }

  /** One call of the search: a stop ends this call, but not the one that made it. */
  ghost function Visits(t: Shape, hash: nat, stop: NodeKey -> bool): (r: seq<NodeKey>)
    decreases t, 1
  {
    if t.Nil? || |t.ts| != |t.ks| + 1 then []
    else VisitsNode(t, hash, stop)
  }

  ghost function VisitsNode(t: Shape, hash: nat, stop: NodeKey -> bool): (r: seq<NodeKey>)
    requires t.Branch? && |t.ts| == |t.ks| + 1
    decreases t, 0
  {
    var ks, ts, p := t.ks, t.ts, FirstAtLeast(t.ks, hash);
    if p == 0 && |ks| > 0 && ks[0].keyhash > hash then Visits(ts[0], hash, stop)
    else if p == |ks| then Visits(ts[p], hash, stop)
    else
      Pieces(First(ks[p], hash), ks[p].keyhash == hash && stop(ks[p]), Sweep(ks[p + 1..], ts[p + 1..|ks|], hash, stop),
        Visits(ts[|ks|], hash, stop), Visits(ts[p], hash, stop))
  }

  ghost function First(k: NodeKey, hash: nat): (r: seq<NodeKey>) {
    if k.keyhash == hash then [k] else []
  }

  /** The order inside one node: the first candidate key, the sweep to its right, the last
      child, and then down into the child in front of the first candidate. */
  ghost function Pieces(first: seq<NodeKey>, stopped: bool, sweep: (seq<NodeKey>, bool), last: seq<NodeKey>,
                        left: seq<NodeKey>): (r: seq<NodeKey>) {
    if stopped then first
    else if sweep.1 then first + sweep.0
    else first + sweep.0 + last + left
  }

  /** The keys behind the first candidate, each with the child in front of it; and whether one of them stopped. */
  ghost function Sweep(ks: seq<NodeKey>, ts: seq<Shape>, hash: nat, stop: NodeKey -> bool): (r: (seq<NodeKey>, bool))
    requires |ks| == |ts|
    decreases ts, 2
  {
    if ts == [] then ([], false)
    else if ks[0].keyhash == hash && stop(ks[0]) then ([ks[0]], true)
    else
      var here := First(ks[0], hash) + Visits(ts[0], hash, stop);
      var rest := Sweep(ks[1..], ts[1..], hash, stop);
      (here + rest.0, rest.1)
  }

  /** Where the search does not turn left at once. */
  ghost predicate Sweeps(t: Shape, hash: nat, p: nat) {
    t.Branch? && |t.ts| == |t.ks| + 1
    && p == FirstAtLeast(t.ks, hash) && p < |t.ks| && !(p == 0 && t.ks[0].keyhash > hash)
  }

  lemma VisitsSweep(t: Shape, hash: nat, stop: NodeKey -> bool, p: nat)
    requires Sweeps(t, hash, p)
    ensures Visits(t, hash, stop) == VisitsNode(t, hash, stop)
      == Pieces(First(t.ks[p], hash), t.ks[p].keyhash == hash && stop(t.ks[p]),
           Sweep(t.ks[p + 1..], t.ts[p + 1..|t.ks|], hash, stop),
           Visits(t.ts[|t.ks|], hash, stop), Visits(t.ts[p], hash, stop))
  {
    hide Sweep;
    hide Pieces;
  }

  ghost function SweepFrom(t: Shape, i: nat, hash: nat, stop: NodeKey -> bool): (r: (seq<NodeKey>, bool))
    requires t.Branch? && |t.ts| == |t.ks| + 1 && i <= |t.ks|
  {
    Sweep(t.ks[i..], t.ts[i..|t.ks|], hash, stop)
  }

  lemma SweepEnds(t: Shape, hash: nat, stop: NodeKey -> bool)
    requires t.Branch? && |t.ts| == |t.ks| + 1
    ensures SweepFrom(t, |t.ks|, hash, stop) == ([], false)
  {
  }

  lemma SweepStep(t: Shape, i: nat, hash: nat, stop: NodeKey -> bool)
    requires t.Branch? && |t.ts| == |t.ks| + 1 && i < |t.ks|
    ensures var k := t.ks[i];
      SweepFrom(t, i, hash, stop) ==
        if k.keyhash == hash && stop(k) then ([k], true)
        else
          (First(k, hash) + Visits(t.ts[i], hash, stop) + SweepFrom(t, i + 1, hash, stop).0,
           SweepFrom(t, i + 1, hash, stop).1)
  {
    assert t.ks[i..][1..] == t.ks[i + 1..];
    assert t.ts[i..|t.ks|][1..] == t.ts[i + 1..|t.ks|];
  }

  /** The state of the sweep over one node in front of key `pos`, if it began at key `p` and did not stop. */
  ghost predicate SweptTo(t: Shape, p: nat, pos: nat, hash: nat, stop: NodeKey -> bool, calls: seq<NodeKey>) {
    && Sweeps(t, hash, p) && p <= pos <= |t.ks|
    && (pos == p ==> calls == [])
    && (pos > p ==>
        && !StopsAt(t, p, hash, stop)
        && Joined(calls, SweepFrom(t, pos, hash, stop).0, SweepTotal(t, p, hash, stop))
        && SweepFrom(t, pos, hash, stop).1 == SweepFrom(t, p + 1, hash, stop).1)
  }

  ghost predicate Joined(calls: seq<NodeKey>, rest: seq<NodeKey>, total: seq<NodeKey>) {
    calls + rest == total
  }

  /** What a sweep that begins at key `p` and does not stop there hands over before the last child. */
  ghost function SweepTotal(t: Shape, p: nat, hash: nat, stop: NodeKey -> bool): (r: seq<NodeKey>)
    requires t.Branch? && |t.ts| == |t.ks| + 1 && p < |t.ks|
  {
    First(t.ks[p], hash) + SweepFrom(t, p + 1, hash, stop).0
  }

  /** What one key of the sweep hands over, with the child in front of it unless it is the first candidate. */
  ghost function OneKey(t: Shape, p: nat, pos: nat, hash: nat, stop: NodeKey -> bool): (calls: seq<NodeKey>)
    requires t.Branch? && |t.ts| == |t.ks| + 1 && pos < |t.ks|
  {
    if pos == p || StopsAt(t, pos, hash, stop) then First(t.ks[pos], hash)
    else First(t.ks[pos], hash) + Visits(t.ts[pos], hash, stop)
  }

  lemma SweptStart(t: Shape, p: nat, hash: nat, stop: NodeKey -> bool)
    requires Sweeps(t, hash, p)
    ensures SweptTo(t, p, p, hash, stop, []) && t.Branch? && |t.ts| == |t.ks| + 1 && p < |t.ks|
  {
  }

  ghost predicate StopsAt(t: Shape, pos: nat, hash: nat, stop: NodeKey -> bool)
    requires t.Branch? && pos < |t.ks|
  {
    t.ks[pos].keyhash == hash && stop(t.ks[pos])
  }

  lemma SweptOn(t: Shape, p: nat, pos: nat, hash: nat, stop: NodeKey -> bool, calls: seq<NodeKey>)
    requires t.Branch? && SweptTo(t, p, pos, hash, stop, calls) && pos < |t.ks|
    ensures if StopsAt(t, pos, hash, stop)
      then Visits(t, hash, stop) == calls + OneKey(t, p, pos, hash, stop)
      else SweptTo(t, p, pos + 1, hash, stop, calls + OneKey(t, p, pos, hash, stop))
  {
    if pos == p {
      assert calls + First(t.ks[p], hash) == First(t.ks[p], hash);
      hide SweepFrom;
      hide First;
      SweptFirst(t, p, hash, stop);
    } else {
      assert Sweeps(t, hash, p) && p < pos;
      hide SweptTo;
      hide First;
      if StopsAt(t, pos, hash, stop) {
        SweptStopped(t, p, pos, hash, stop, calls);
      } else {
        SweptKey(t, p, pos, hash, stop, calls);
      }
    }
  }

  lemma SweptFirst(t: Shape, p: nat, hash: nat, stop: NodeKey -> bool)
    requires Sweeps(t, hash, p)
    ensures if StopsAt(t, p, hash, stop)
      then Visits(t, hash, stop) == First(t.ks[p], hash)
      else SweptTo(t, p, p + 1, hash, stop, First(t.ks[p], hash))
  {
    if StopsAt(t, p, hash, stop) {
      VisitsSweep(t, hash, stop, p);
      hide Visits;
      hide VisitsNode;
      hide Sweep;
      hide First;
    } else {
      hide Visits;
      hide SweepFrom;
      hide First;
      hide FirstAtLeast;
      assert Joined(First(t.ks[p], hash), SweepFrom(t, p + 1, hash, stop).0, SweepTotal(t, p, hash, stop));
      hide Joined;
      hide SweepTotal;
    }
  }

  lemma SweptStopped(t: Shape, p: nat, pos: nat, hash: nat, stop: NodeKey -> bool, calls: seq<NodeKey>)
    requires t.Branch? && SweptTo(t, p, pos, hash, stop, calls) && p < pos < |t.ks| && StopsAt(t, pos, hash, stop)
    ensures Visits(t, hash, stop) == calls + First(t.ks[pos], hash)
  {
    SweepStep(t, pos, hash, stop);
    assert First(t.ks[pos], hash) == [t.ks[pos]] == SweepFrom(t, pos, hash, stop).0;
    SweepBehind(t, p, hash, stop);
    hide Visits;
    hide SweepFrom;
    hide First;
    hide Sweeps;
  }

  lemma SweptKey(t: Shape, p: nat, pos: nat, hash: nat, stop: NodeKey -> bool, calls: seq<NodeKey>)
    requires t.Branch? && SweptTo(t, p, pos, hash, stop, calls) && p < pos < |t.ks| && !StopsAt(t, pos, hash, stop)
    ensures SweptTo(t, p, pos + 1, hash, stop, calls + (First(t.ks[pos], hash) + Visits(t.ts[pos], hash, stop)))
  {
    var one := First(t.ks[pos], hash) + Visits(t.ts[pos], hash, stop);
    SweepGoesOn(t, pos, hash, stop);
    SweptMore(t, p, pos, hash, stop, calls, one);
  }

  lemma SweptMore(t: Shape, p: nat, pos: nat, hash: nat, stop: NodeKey -> bool, calls: seq<NodeKey>, one: seq<NodeKey>)
    requires t.Branch? && SweptTo(t, p, pos, hash, stop, calls) && p < pos < |t.ks|
    requires SweepFrom(t, pos, hash, stop).0 == one + SweepFrom(t, pos + 1, hash, stop).0
    requires SweepFrom(t, pos, hash, stop).1 == SweepFrom(t, pos + 1, hash, stop).1
    ensures SweptTo(t, p, pos + 1, hash, stop, calls + one)
  {
    hide SweepFrom;
    hide First;
    hide FirstAtLeast;
    hide Joined;
    hide SweepTotal;
    Onwards(calls, one, SweepFrom(t, pos + 1, hash, stop).0, SweepTotal(t, p, hash, stop));
  }

  lemma Onwards(calls: seq<NodeKey>, one: seq<NodeKey>, rest: seq<NodeKey>, total: seq<NodeKey>)
    requires Joined(calls, one + rest, total)
    ensures Joined(calls + one, rest, total)
  {
    Assoc(calls, one, rest);
  }

  lemma SweepGoesOn(t: Shape, i: nat, hash: nat, stop: NodeKey -> bool)
    requires t.Branch? && |t.ts| == |t.ks| + 1 && i < |t.ks| && !StopsAt(t, i, hash, stop)
    ensures var one, rest := First(t.ks[i], hash) + Visits(t.ts[i], hash, stop), SweepFrom(t, i + 1, hash, stop);
      SweepFrom(t, i, hash, stop) == (one + rest.0, rest.1)
  {
    SweepStep(t, i, hash, stop);
    hide SweepFrom;
    hide Visits;
    hide First;
  }

  /** The keys handed over by a sweep that does not stop at its first key. */
  lemma SweepBehind(t: Shape, p: nat, hash: nat, stop: NodeKey -> bool)
    requires Sweeps(t, hash, p) && !StopsAt(t, p, hash, stop)
    ensures var right := SweepFrom(t, p + 1, hash, stop);
      Visits(t, hash, stop) == if right.1 then First(t.ks[p], hash) + right.0
        else First(t.ks[p], hash) + right.0 + Visits(t.ts[|t.ks|], hash, stop) + Visits(t.ts[p], hash, stop)
  {
    VisitsSweep(t, hash, stop, p);
    hide Visits;
    hide VisitsNode;
    hide Sweep;
    hide First;
  }

  lemma SweptAll(t: Shape, p: nat, hash: nat, stop: NodeKey -> bool, calls: seq<NodeKey>)
    requires t.Branch? && p < |t.ks| && SweptTo(t, p, |t.ks|, hash, stop, calls)
    ensures Visits(t, hash, stop) == calls + Visits(t.ts[|t.ks|], hash, stop) + Visits(t.ts[p], hash, stop)
  {
    SweepEnds(t, hash, stop);
    SweepBehind(t, p, hash, stop);
    hide Visits;
    hide SweepFrom;
    hide First;
    assert calls + [] == calls;
  }

  lemma Assoc<T>(a: seq<T>, b: seq<T>, c: seq<T>)
    ensures a + (b + c) == a + b + c
  {
  }

  // ---- what the trace depends on ----

  lemma TurnsLeft(t: Shape, hash: nat, stop: NodeKey -> bool)
    requires t.Branch? && |t.ts| == |t.ks| + 1 && !Sweeps(t, hash, FirstAtLeast(t.ks, hash))
    ensures Visits(t, hash, stop) == Visits(t.ts[FirstAtLeast(t.ks, hash)], hash, stop)
  {
    hide Sweep;
    hide Pieces;
  }

  /** It does not depend on the addresses of the blocks. */
  lemma {:induction false} AlikeVisits(t: Shape, u: Shape, hash: nat, stop: NodeKey -> bool)
    requires Alike(t, u)
    ensures Visits(t, hash, stop) == Visits(u, hash, stop)
    decreases t, 1
  {
    if t.Branch? && |t.ts| == |t.ks| + 1 {
      var p, n := FirstAtLeast(t.ks, hash), |t.ks|;
      AlikeVisits(t.ts[p], u.ts[p], hash, stop);
      if Sweeps(t, hash, p) {
        AlikeSweep(t.ks[p + 1..], t.ts[p + 1..n], u.ts[p + 1..n], hash, stop);
        AlikeVisits(t.ts[n], u.ts[n], hash, stop);
        VisitsSweep(t, hash, stop, p);
        VisitsSweep(u, hash, stop, p);
      } else {
        TurnsLeft(t, hash, stop);
        TurnsLeft(u, hash, stop);
      }
    }
  }

  lemma {:induction false} AlikeSweep(ks: seq<NodeKey>, ts: seq<Shape>, us: seq<Shape>, hash: nat,
                                      stop: NodeKey -> bool)
    requires |ks| == |ts| && AlikeAll(ts, us)
    ensures Sweep(ks, ts, hash, stop) == Sweep(ks, us, hash, stop)
    decreases ts, 2
  {
    if ts != [] {
      AlikeVisits(ts[0], us[0], hash, stop);
      AlikeSweep(ks[1..], ts[1..], us[1..], hash, stop);
    }
  }

  lemma ChildKeys(t: Shape, i: nat)
    requires t.Branch? && |t.ts| == |t.ks| + 1 && i < |t.ts|
    ensures forall k :: k in Flat(t.ts[i]) ==> k in Flat(t)
  {
    assert t.ks == t.ks[..i] + t.ks[i..] && t.ts == t.ts[..i] + [t.ts[i]] + t.ts[i + 1..];
    WeaveAround(t.ks[..i], t.ts[..i], t.ts[i], t.ks[i..], t.ts[i + 1..]);
  }

  /** It depends on the callback only as far as the keys of the tree go. */
  lemma {:induction false} VisitsAgree(t: Shape, hash: nat, stop: NodeKey -> bool, stop': NodeKey -> bool)
    requires forall k :: k in Flat(t) ==> stop(k) == stop'(k)
    ensures Visits(t, hash, stop) == Visits(t, hash, stop')
    decreases t, 1
  {
    if t.Branch? && |t.ts| == |t.ks| + 1 {
      var p, n := FirstAtLeast(t.ks, hash), |t.ks|;
      forall i | 0 <= i <= n ensures forall k :: k in Flat(t.ts[i]) ==> k in Flat(t) { ChildKeys(t, i); }
      forall i | 0 <= i < n ensures t.ks[i] in Flat(t) { KeyHere(t, i); }
      hide Flat;
      VisitsAgree(t.ts[p], hash, stop, stop');
      if Sweeps(t, hash, p) {
        SweepAgrees(t.ks[p + 1..], t.ts[p + 1..n], hash, stop, stop');
        VisitsAgree(t.ts[n], hash, stop, stop');
        VisitsSweep(t, hash, stop, p);
        VisitsSweep(t, hash, stop', p);
      } else {
        TurnsLeft(t, hash, stop);
        TurnsLeft(t, hash, stop');
      }
    }
  }

  lemma {:induction false} SweepAgrees(ks: seq<NodeKey>, ts: seq<Shape>, hash: nat, stop: NodeKey -> bool,
                                       stop': NodeKey -> bool)
    requires |ks| == |ts| && forall i :: 0 <= i < |ks| ==> stop(ks[i]) == stop'(ks[i])
    requires forall i, k :: 0 <= i < |ts| && k in Flat(ts[i]) ==> stop(k) == stop'(k)
    ensures Sweep(ks, ts, hash, stop) == Sweep(ks, ts, hash, stop')
    decreases ts, 2
  {
    hide Flat;
    if ts != [] {
      VisitsAgree(ts[0], hash, stop, stop');
      SweepAgrees(ks[1..], ts[1..], hash, stop, stop');
    }
  }

  /** A search that finds the first key of the root calls back for that key, and ends there if it stops it. */
  lemma RootFirst(t: Shape, hash: nat, stop: NodeKey -> bool)
    requires t.Branch? && |t.ts| == |t.ks| + 1 && |t.ks| > 0 && t.ks[0].keyhash == hash && stop(t.ks[0])
    ensures Visits(t, hash, stop) == [t.ks[0]]
  {
    VisitsSweep(t, hash, stop, 0);
    hide Sweep;
    hide Visits;
  }

  // ---- no key is handed over that is not a candidate, and none twice ----

  ghost function KeyBags(ts: seq<Shape>): (r: multiset<NodeKey>) {
    if ts == [] then multiset{} else multiset(Flat(ts[0])) + KeyBags(ts[1..])
  }

  lemma {:induction false} KeyBagsJoin(ts: seq<Shape>, us: seq<Shape>)
    ensures KeyBags(ts + us) == KeyBags(ts) + KeyBags(us)
  {
    if ts == [] {
      assert ts + us == us;
    } else {
      assert (ts + us)[1..] == ts[1..] + us;
      KeyBagsJoin(ts[1..], us);
    }
  }

  lemma {:induction false} WeaveBag(ks: seq<NodeKey>, ts: seq<Shape>)
    requires |ts| == |ks| + 1
    ensures multiset(Weave(ks, ts)) == multiset(ks) + KeyBags(ts)
    decreases |ts|
  {
    hide Flat;
    if ks == [] {
      assert ts[1..] == [];
    } else {
      var first, rest := Flat(ts[0]), Weave(ks[1..], ts[1..]);
      WeaveBag(ks[1..], ts[1..]);
      assert multiset(ks) == multiset{ks[0]} + multiset(ks[1..]) by { assert ks == [ks[0]] + ks[1..]; }
      assert multiset(Weave(ks, ts)) == multiset(first) + multiset{ks[0]} + multiset(rest);
    }
  }

  ghost predicate AllHash(s: seq<NodeKey>, hash: nat) {
    forall k :: k in s ==> k.keyhash == hash
  }

  lemma {:induction false} VisitsWithin(t: Shape, hash: nat, stop: NodeKey -> bool)
    ensures AllHash(Visits(t, hash, stop), hash)
    ensures multiset(Visits(t, hash, stop)) <= multiset(Flat(t))
    decreases t, 1
  {
    if t.Branch? && |t.ts| == |t.ks| + 1 {
      VisitsNodeWithin(t, hash, stop);
    }
  }

  lemma KeyBagsFour(l: seq<Shape>, c: Shape, m: seq<Shape>, d: Shape)
    ensures KeyBags(l + ([c] + (m + [d]))) == KeyBags(l) + (multiset(Flat(c)) + (KeyBags(m) + multiset(Flat(d))))
  {
    KeyBagsJoin(l, [c] + (m + [d]));
    KeyBagsJoin([c], m + [d]);
    KeyBagsJoin(m, [d]);
    KeyBagsOne(c);
    KeyBagsOne(d);
  }

  /** The keys of a node and of its children, by where the search finds them. */
  lemma NodeBag(kl: seq<NodeKey>, k: NodeKey, kr: seq<NodeKey>, tl: seq<Shape>, c: Shape, tm: seq<Shape>, d: Shape)
    requires |kl| == |tl| && |kr| == |tm|
    ensures multiset(Weave(kl + [k] + kr, tl + ([c] + (tm + [d]))))
         == (multiset(kl) + KeyBags(tl)) + multiset{k} + (multiset(kr) + KeyBags(tm))
            + multiset(Flat(d)) + multiset(Flat(c))
  {
    hide Weave;
    hide Flat;
    hide KeyBags;
    WeaveBag(kl + [k] + kr, tl + ([c] + (tm + [d])));
    KeyBagsFour(tl, c, tm, d);
  }

  lemma KeyBagsOne(t: Shape)
    ensures KeyBags([t]) == multiset(Flat(t))
  {
    assert [t][1..] == [];
  }

  lemma ChildInNode(ks: seq<NodeKey>, ts: seq<Shape>, p: nat)
    requires |ts| == |ks| + 1 && p < |ts|
    ensures multiset(Flat(ts[p])) <= multiset(Weave(ks, ts))
  {
    assert ks == ks[..p] + ks[p..] && ts == ts[..p] + [ts[p]] + ts[p + 1..];
    WeaveAround(ks[..p], ts[..p], ts[p], ks[p..], ts[p + 1..]);
  }

  lemma {:induction false} VisitsNodeWithin(t: Shape, hash: nat, stop: NodeKey -> bool)
    requires t.Branch? && |t.ts| == |t.ks| + 1
    ensures AllHash(VisitsNode(t, hash, stop), hash)
    ensures multiset(VisitsNode(t, hash, stop)) <= multiset(Flat(t))
    decreases t, 0, 1
  {
    var ks, ts, p := t.ks, t.ts, FirstAtLeast(t.ks, hash);
    if p == |ks| || (p == 0 && ks[0].keyhash > hash) {
      VisitsWithin(ts[p], hash, stop);
      ChildInNode(ks, ts, p);
    } else {
      VisitsSweepWithin(t, hash, stop, p);
    }
  }

  lemma {:induction false} VisitsSweepWithin(t: Shape, hash: nat, stop: NodeKey -> bool, p: nat)
    requires Sweeps(t, hash, p)
    ensures AllHash(VisitsNode(t, hash, stop), hash)
    ensures multiset(VisitsNode(t, hash, stop)) <= multiset(Flat(t))
    decreases t, 0, 0
  {
    var ks, ts := t.ks, t.ts;
    var kr, tm, d := ks[p + 1..], ts[p + 1..|ks|], ts[|ks|];
    VisitsWithin(ts[p], hash, stop);
    SweepWithin(kr, tm, hash, stop);
    VisitsWithin(d, hash, stop);
    var rest := multiset(ks[..p]) + KeyBags(ts[..p]);
    var whole := rest + multiset{ks[p]} + (multiset(kr) + KeyBags(tm)) + multiset(Flat(d)) + multiset(Flat(ts[p]));
    assert multiset(Flat(t)) == whole by {
      NodeParts(ks, ts, p);
      NodeBag(ks[..p], ks[p], kr, ts[..p], ts[p], tm, d);
    }
    VisitsSweep(t, hash, stop, p);
    PiecesWithin(First(ks[p], hash), ks[p].keyhash == hash && stop(ks[p]), Sweep(kr, tm, hash, stop),
      Visits(d, hash, stop), Visits(ts[p], hash, stop), hash,
      rest, multiset{ks[p]}, multiset(kr) + KeyBags(tm), multiset(Flat(d)), multiset(Flat(ts[p])));
  }

  lemma NodeParts(ks: seq<NodeKey>, ts: seq<Shape>, p: nat)
    requires |ts| == |ks| + 1 && p < |ks|
    ensures ks == ks[..p] + [ks[p]] + ks[p + 1..]
    ensures ts == ts[..p] + ([ts[p]] + (ts[p + 1..|ks|] + [ts[|ks|]]))
  {
  }

  lemma PiecesWithin(a: seq<NodeKey>, stopped: bool, b: (seq<NodeKey>, bool), c: seq<NodeKey>, d: seq<NodeKey>,
                     hash: nat,
                     rest: multiset<NodeKey>, a': multiset<NodeKey>, b': multiset<NodeKey>, c': multiset<NodeKey>,
                     d': multiset<NodeKey>)
    requires AllHash(a, hash) && AllHash(b.0, hash) && AllHash(c, hash) && AllHash(d, hash)
    requires multiset(a) <= a' && multiset(b.0) <= b' && multiset(c) <= c' && multiset(d) <= d'
    ensures AllHash(Pieces(a, stopped, b, c, d), hash)
    ensures multiset(Pieces(a, stopped, b, c, d)) <= rest + a' + b' + c' + d'
  {
    FourParts(a, b.0, c, d, hash);
  }

  lemma FourParts(a: seq<NodeKey>, b: seq<NodeKey>, c: seq<NodeKey>, d: seq<NodeKey>, hash: nat)
    requires AllHash(a, hash) && AllHash(b, hash) && AllHash(c, hash) && AllHash(d, hash)
    ensures AllHash(a + b, hash) && AllHash(a + b + c + d, hash)
    ensures multiset(a + b) == multiset(a) + multiset(b)
    ensures multiset(a + b + c + d) == multiset(a) + multiset(b) + multiset(c) + multiset(d)
  {
  }

  lemma {:induction false} SweepWithin(ks: seq<NodeKey>, ts: seq<Shape>, hash: nat, stop: NodeKey -> bool)
    requires |ks| == |ts|
    ensures AllHash(Sweep(ks, ts, hash, stop).0, hash)
    ensures multiset(Sweep(ks, ts, hash, stop).0) <= multiset(ks) + KeyBags(ts)
    decreases ts, 2
  {
    SweepUnfold(ks, ts, hash, stop);
    hide Sweep;
    hide Visits;
    hide Flat;
    if ts != [] {
      VisitsWithin(ts[0], hash, stop);
      SweepWithin(ks[1..], ts[1..], hash, stop);
      SweepBags(ks, ts);
      hide KeyBags;
      hide AllHash;
      SweepPieces(ks[0], Visits(ts[0], hash, stop), Sweep(ks[1..], ts[1..], hash, stop).0, hash,
        multiset(Flat(ts[0])), multiset(ks[1..]) + KeyBags(ts[1..]));
    }
  }

  lemma SweepBags(ks: seq<NodeKey>, ts: seq<Shape>)
    requires |ks| == |ts| > 0
    ensures multiset(ks) + KeyBags(ts) ==
      multiset{ks[0]} + multiset(Flat(ts[0])) + (multiset(ks[1..]) + KeyBags(ts[1..]))
  {
    hide Flat;
    assert ks == [ks[0]] + ks[1..];
  }

  lemma SweepUnfold(ks: seq<NodeKey>, ts: seq<Shape>, hash: nat, stop: NodeKey -> bool)
    requires |ks| == |ts|
    ensures Sweep(ks, ts, hash, stop).0 ==
      if ts == [] then []
      else if ks[0].keyhash == hash && stop(ks[0]) then [ks[0]]
      else First(ks[0], hash) + Visits(ts[0], hash, stop) + Sweep(ks[1..], ts[1..], hash, stop).0
  {
  }

  lemma SweepPieces(k: NodeKey, v: seq<NodeKey>, rest: seq<NodeKey>, hash: nat, v': multiset<NodeKey>,
                    rest': multiset<NodeKey>)
    requires AllHash(v, hash) && AllHash(rest, hash) && multiset(v) <= v' && multiset(rest) <= rest'
    ensures AllHash(First(k, hash) + v + rest, hash)
    ensures multiset(First(k, hash) + v + rest) <= multiset{k} + v' + rest'
    ensures k.keyhash == hash ==> AllHash([k], hash) && multiset([k]) <= multiset{k} + v' + rest'
  {
    FourParts(First(k, hash), v, rest, [], hash);
    assert First(k, hash) + v + rest + [] == First(k, hash) + v + rest;
  }

  // ---- without a stop every candidate is handed over ----

  ghost predicate NoStop(s: seq<NodeKey>, stop: NodeKey -> bool) {
    forall k :: k in s ==> !stop(k)
  }

  ghost predicate Covers(v: seq<NodeKey>, t: Shape, hash: nat) {
    forall k :: k in Flat(t) && k.keyhash == hash ==> k in v
  }

  lemma {:induction false} InWeave(ks: seq<NodeKey>, ts: seq<Shape>, k: NodeKey) returns (j: nat)
    requires |ts| == |ks| + 1 && k in Weave(ks, ts)
    ensures j < |ts| && (k in Flat(ts[j]) || (j < |ks| && k == ks[j]))
    decreases |ts|
  {
    if ks == [] || k in Flat(ts[0]) || k == ks[0] {
      j := 0;
    } else {
      var i := InWeave(ks[1..], ts[1..], k);
      j := i + 1;
    }
  }

  lemma LessHash(a: NodeKey, b: NodeKey)
    requires Less(a, b)
    ensures a.keyhash <= b.keyhash
  {
  }

  /** The keys of child `j` lie between the keys on its two sides. */
  lemma ChildHashes(t: Shape, j: nat, k: NodeKey)
    requires t.Branch? && |t.ts| == |t.ks| + 1 && Sorted(Flat(t)) && j < |t.ts| && k in Flat(t.ts[j])
    ensures j > 0 ==> t.ks[j - 1].keyhash <= k.keyhash
    ensures j < |t.ks| ==> k.keyhash <= t.ks[j].keyhash
    ensures Sorted(Flat(t.ts[j]))
  {
    var kl, kr, tl, tr := t.ks[..j], t.ks[j..], t.ts[..j], t.ts[j + 1..];
    assert t.ks == kl + kr && t.ts == tl + [t.ts[j]] + tr;
    WeaveAround(kl, tl, t.ts[j], kr, tr);
    SortedParts(Flat(t), Lead(kl, tl), Flat(t.ts[j]), Trail(kr, tr));
    if j > 0 {
      LeadEnds(kl, tl);
      LessHash(t.ks[j - 1], k);
    }
    if j < |t.ks| {
      assert Trail(kr, tr)[0] == t.ks[j];
      LessHash(k, t.ks[j]);
    }
  }

  lemma KeyHashes(t: Shape, i: nat, j: nat)
    requires t.Branch? && |t.ts| == |t.ks| + 1 && Sorted(Flat(t)) && i < j < |t.ks|
    ensures t.ks[i].keyhash <= t.ks[j].keyhash
  {
    WeaveSplit(t.ks, t.ts, j);
    var l := Branch(t.at, t.ks[..j], t.ts[..j + 1]);
    KeyHere(l, i);
    SortedParts(Flat(t), Flat(l), [t.ks[j]], Weave(t.ks[j + 1..], t.ts[j + 1..]));
    LessHash(t.ks[i], t.ks[j]);
  }

  /** Where a candidate can be: not in front of the first key that is large enough. */
  lemma CandidatePlace(t: Shape, h: nat, lo: nat, hash: nat, k: NodeKey) returns (j: nat)
    requires t.Branch? && Good(t, h, lo) && Sorted(Flat(t)) && k in Flat(t) && k.keyhash == hash
    ensures j < |t.ts| && (k in Flat(t.ts[j]) || (j < |t.ks| && k == t.ks[j]))
    ensures FirstAtLeast(t.ks, hash) <= j
    ensures |t.ks| > 0 && t.ks[0].keyhash > hash ==> j == 0 && k in Flat(t.ts[0])
  {
    j := InWeave(t.ks, t.ts, k);
    var p := FirstAtLeast(t.ks, hash);
    if k in Flat(t.ts[j]) {
      ChildHashes(t, j, k);
      if j > 1 { KeyHashes(t, 0, j - 1); }
    } else {
      if j > 0 { KeyHashes(t, 0, j); }
    }
  }

  lemma {:induction false} VisitsComplete(t: Shape, h: nat, lo: nat, hash: nat, stop: NodeKey -> bool)
    requires Good(t, h, lo) && Sorted(Flat(t)) && NoStop(Visits(t, hash, stop), stop)
    ensures Covers(Visits(t, hash, stop), t, hash)
    decreases t, 1
  {
    if t.Branch? {
      var p := FirstAtLeast(t.ks, hash);
      ChildrenSorted(t);
      if Sweeps(t, hash, p) {
        VisitsSweepComplete(t, h, lo, hash, stop, p);
      } else {
        assert Visits(t, hash, stop) == Visits(t.ts[p], hash, stop);
        VisitsComplete(t.ts[p], h - 1, TREE_NODEMIN, hash, stop);
        forall k | k in Flat(t) && k.keyhash == hash ensures k in Visits(t, hash, stop) {
          var j := CandidatePlace(t, h, lo, hash, k);
        }
      }
    }
  }

  lemma ChildrenSorted(t: Shape)
    requires t.Branch? && |t.ts| == |t.ks| + 1 && Sorted(Flat(t))
    ensures forall j :: 0 <= j < |t.ts| ==> Sorted(Flat(t.ts[j]))
  {
    forall j | 0 <= j < |t.ts| ensures Sorted(Flat(t.ts[j])) {
      var kl, kr, tl, tr := t.ks[..j], t.ks[j..], t.ts[..j], t.ts[j + 1..];
      assert t.ks == kl + kr && t.ts == tl + [t.ts[j]] + tr;
      WeaveAround(kl, tl, t.ts[j], kr, tr);
      SortedParts(Flat(t), Lead(kl, tl), Flat(t.ts[j]), Trail(kr, tr));
    }
  }

  lemma {:induction false} VisitsSweepComplete(t: Shape, h: nat, lo: nat, hash: nat, stop: NodeKey -> bool, p: nat)
    requires Sweeps(t, hash, p) && Good(t, h, lo) && Sorted(Flat(t)) && NoStop(Visits(t, hash, stop), stop)
    ensures Covers(Visits(t, hash, stop), t, hash)
    decreases t, 0
  {
    var kr, tm := t.ks[p + 1..], t.ts[p + 1..|t.ks|];
    var sweep, last, left := Sweep(kr, tm, hash, stop), Visits(t.ts[|t.ks|], hash, stop), Visits(t.ts[p], hash, stop);
    VisitsSweep(t, hash, stop, p);
    var stopped := t.ks[p].keyhash == hash && stop(t.ks[p]);
    PiecesWhole(First(t.ks[p], hash), stopped, sweep, last, left, stop);
    ChildrenSorted(t);
    assert !stopped;
    SweepComplete(kr, tm, h - 1, hash, stop);
    VisitsComplete(t.ts[|t.ks|], h - 1, TREE_NODEMIN, hash, stop);
    VisitsComplete(t.ts[p], h - 1, TREE_NODEMIN, hash, stop);
    AllHandedOver(t, h, lo, hash, p, sweep.0, last, left);
  }

  lemma AllHandedOver(t: Shape, h: nat, lo: nat, hash: nat, p: nat, sweep: seq<NodeKey>, last: seq<NodeKey>,
                      left: seq<NodeKey>)
    requires Sweeps(t, hash, p) && Good(t, h, lo) && Sorted(Flat(t))
    requires Covers(last, t.ts[|t.ks|], hash) && Covers(left, t.ts[p], hash)
    requires
      var kr, tm := t.ks[p + 1..], t.ts[p + 1..|t.ks|];
      (forall i :: 0 <= i < |kr| && kr[i].keyhash == hash ==> kr[i] in sweep)
      && forall i :: 0 <= i < |tm| ==> Covers(sweep, tm[i], hash)
    ensures Covers(First(t.ks[p], hash) + sweep + last + left, t, hash)
  {
    forall k | k in Flat(t) && k.keyhash == hash ensures k in First(t.ks[p], hash) + sweep + last + left {
      CandidateHandedOver(t, h, lo, hash, p, k, sweep, last, left);
    }
  }

  lemma CandidateHandedOver(t: Shape, h: nat, lo: nat, hash: nat, p: nat, k: NodeKey, sweep: seq<NodeKey>,
                            last: seq<NodeKey>, left: seq<NodeKey>)
    requires Sweeps(t, hash, p) && Good(t, h, lo) && Sorted(Flat(t)) && k in Flat(t) && k.keyhash == hash
    requires Covers(last, t.ts[|t.ks|], hash) && Covers(left, t.ts[p], hash)
    requires
      var kr, tm := t.ks[p + 1..], t.ts[p + 1..|t.ks|];
      (forall i :: 0 <= i < |kr| && kr[i].keyhash == hash ==> kr[i] in sweep)
      && forall i :: 0 <= i < |tm| ==> Covers(sweep, tm[i], hash)
    ensures k in First(t.ks[p], hash) + sweep + last + left
  {
    hide Flat;
    hide Good;
    hide Sorted;
    var kr, tm := t.ks[p + 1..], t.ts[p + 1..|t.ks|];
    var j := CandidatePlace(t, h, lo, hash, k);
    if p < j < |t.ks| {
      assert kr[j - p - 1] == t.ks[j] && tm[j - p - 1] == t.ts[j];
    }
    assert k in First(t.ks[p], hash) || k in sweep || k in last || k in left;
    InOneOfFour(k, First(t.ks[p], hash), sweep, last, left);
  }

  lemma InOneOfFour(k: NodeKey, a: seq<NodeKey>, b: seq<NodeKey>, c: seq<NodeKey>, d: seq<NodeKey>)
    requires k in a || k in b || k in c || k in d
    ensures k in a + b + c + d
  {
  }

  /** If nothing handed over stopped the search, the whole node was gone through. */
  lemma PiecesWhole(first: seq<NodeKey>, stopped: bool, sweep: (seq<NodeKey>, bool), last: seq<NodeKey>,
                    left: seq<NodeKey>, stop: NodeKey -> bool)
    requires NoStop(Pieces(first, stopped, sweep, last, left), stop)
    ensures stopped ==> NoStop(first, stop)
    ensures stopped || NoStop(sweep.0, stop)
    ensures !stopped && !sweep.1 ==> Pieces(first, stopped, sweep, last, left) == first + sweep.0 + last + left
    ensures !stopped && !sweep.1 ==> NoStop(last, stop) && NoStop(left, stop)
  {
    var v := Pieces(first, stopped, sweep, last, left);
    forall k | !stopped && k in sweep.0 ensures !stop(k) { assert k in v; }
    forall k | !stopped && !sweep.1 && (k in last || k in left) ensures !stop(k) { assert k in v; }
  }

  lemma SweepStops(ks: seq<NodeKey>, ts: seq<Shape>, hash: nat, stop: NodeKey -> bool)
    requires |ks| == |ts| > 0
    ensures ks[0].keyhash == hash && stop(ks[0]) ==> ks[0] in Sweep(ks, ts, hash, stop).0
  {
  }

  lemma {:induction false} SweepComplete(ks: seq<NodeKey>, ts: seq<Shape>, h: nat, hash: nat, stop: NodeKey -> bool)
    requires |ks| == |ts| && NoStop(Sweep(ks, ts, hash, stop).0, stop)
    requires forall i :: 0 <= i < |ts| ==> Good(ts[i], h, TREE_NODEMIN) && Sorted(Flat(ts[i]))
    ensures !Sweep(ks, ts, hash, stop).1
    ensures forall i :: 0 <= i < |ks| && ks[i].keyhash == hash ==> ks[i] in Sweep(ks, ts, hash, stop).0
    ensures forall i :: 0 <= i < |ts| ==> Covers(Sweep(ks, ts, hash, stop).0, ts[i], hash)
    decreases ts, 2
  {
    if ts != [] {
      hide Flat;
      hide Good;
      hide Sorted;
      var all := Sweep(ks, ts, hash, stop);
      var v, rest := Visits(ts[0], hash, stop), Sweep(ks[1..], ts[1..], hash, stop);
      SweepStops(ks, ts, hash, stop);
      assert all.0 == First(ks[0], hash) + v + rest.0;
      assert forall k :: k in v || k in rest.0 ==> k in all.0;
      VisitsComplete(ts[0], h, TREE_NODEMIN, hash, stop);
      SweepComplete(ks[1..], ts[1..], h, hash, stop);
      forall i | 0 <= i < |ts| ensures Covers(all.0, ts[i], hash) {
        if i > 0 { assert ts[i] == ts[1..][i - 1]; }
      }
      forall i | 0 <= i < |ks| && ks[i].keyhash == hash ensures ks[i] in all.0 {
        if i > 0 { assert ks[i] == ks[1..][i - 1]; }
      }
    }
  }

  // ---- a tree of one node: the search stops at the least key that stops it ----

  /** The callbacks end at the least key of hash `hash` at which `stop` holds, if there is one. */
  ghost predicate EndsAtLeast(calls: seq<NodeKey>, ks: seq<NodeKey>, hash: nat, stop: NodeKey -> bool) {
    forall k :: k in ks && k.keyhash == hash && stop(k) ==>
      calls != [] && stop(calls[|calls| - 1]) && !Less(k, calls[|calls| - 1])
  }

  lemma LeafSweepStep(ks: seq<NodeKey>, ts: seq<Shape>, hash: nat, stop: NodeKey -> bool)
    requires |ks| == |ts| > 0 && ts[0].Nil? && !(ks[0].keyhash == hash && stop(ks[0]))
    ensures Sweep(ks, ts, hash, stop).0 == First(ks[0], hash) + Sweep(ks[1..], ts[1..], hash, stop).0
    ensures Sweep(ks, ts, hash, stop).1 == Sweep(ks[1..], ts[1..], hash, stop).1
  {
    assert Visits(ts[0], hash, stop) == [];
    assert First(ks[0], hash) + [] == First(ks[0], hash);
  }

  lemma {:induction false} LeafSweep(ks: seq<NodeKey>, ts: seq<Shape>, hash: nat, stop: NodeKey -> bool)
    requires |ks| == |ts| && Sorted(ks) && forall i :: 0 <= i < |ts| ==> ts[i].Nil?
    ensures EndsAtLeast(Sweep(ks, ts, hash, stop).0, ks, hash, stop)
    ensures Sweep(ks, ts, hash, stop).1 <==> exists k :: k in ks && k.keyhash == hash && stop(k)
    decreases |ks|
  {
    hide Compare;
    hide Less;
    if ks != [] {
      assert forall k :: k in ks ==> k == ks[0] || k in ks[1..];
      if ks[0].keyhash == hash && stop(ks[0]) {
        forall k | k in ks ensures !Less(k, ks[0]) {
          CompareIsStrictOrder(ks[0], k, k);
        }
      } else {
        LeafSweep(ks[1..], ts[1..], hash, stop);
        LeafSweepStep(ks, ts, hash, stop);
      }
    }
  }

  lemma {:induction false} LeafFlat(ks: seq<NodeKey>, ts: seq<Shape>)
    requires |ts| == |ks| + 1 && forall i :: 0 <= i < |ts| ==> ts[i].Nil?
    ensures Weave(ks, ts) == ks
  {
    if ks != [] {
      LeafFlat(ks[1..], ts[1..]);
    }
  }

  /** In a leaf the search is the sweep over the keys from the first candidate on. */
  lemma LeafAsSweep(t: Shape, hash: nat, stop: NodeKey -> bool, p: nat)
    requires Sweeps(t, hash, p) && forall i :: 0 <= i < |t.ts| ==> t.ts[i].Nil?
    ensures Visits(t, hash, stop) == SweepFrom(t, p, hash, stop).0
  {
    VisitsSweep(t, hash, stop, p);
    SweepStep(t, p, hash, stop);
  }

  lemma LeafVisits(t: Shape, hash: nat, stop: NodeKey -> bool)
    requires Good(t, 1, 1) && Sorted(Flat(t))
    ensures EndsAtLeast(Visits(t, hash, stop), Flat(t), hash, stop)
  {
    hide Visits;
    hide Sweep;
    var ks, ts := t.ks, t.ts;
    assert Flat(t) == ks by { LeafFlat(ks, ts); }
    var p := FirstAtLeast(ks, hash);
    assert Sorted(ks) && |ts| == |ks| + 1 && forall i :: 0 <= i < |ts| ==> ts[i].Nil?;
    hide Flat;
    hide Good;
    hide Sorted;
    hide Less;
    hide FirstAtLeast;
    SortedBehind(ks, p, hash);
    if p >= |ks| || ks[p].keyhash != hash {
      return;
    }
    hide EndsAtLeast;
    LeafSweep(ks[p..], ts[p..|ks|], hash, stop);
    LeafAsSweep(t, hash, stop, p);
    EndsBehind(Visits(t, hash, stop), ks, p, hash, stop);
  }

  lemma EndsBehind(calls: seq<NodeKey>, ks: seq<NodeKey>, p: nat, hash: nat, stop: NodeKey -> bool)
    requires p <= |ks| && forall k :: k in ks && k.keyhash == hash ==> k in ks[p..]
    requires EndsAtLeast(calls, ks[p..], hash, stop)
    ensures EndsAtLeast(calls, ks, hash, stop)
  {
    hide Less;
  }

  lemma SortedBehind(ks: seq<NodeKey>, p: nat, hash: nat)
    requires Sorted(ks) && p == FirstAtLeast(ks, hash)
    ensures Sorted(ks[p..])
    ensures forall k :: k in ks && k.keyhash == hash ==> k in ks[p..]
    ensures forall k :: k in ks && k.keyhash == hash ==> p < |ks| && ks[p].keyhash == hash
  {
    forall k | k in ks && k.keyhash == hash ensures k in ks[p..] && ks[p].keyhash == hash {
      var i :| 0 <= i < |ks| && ks[i] == k;
      assert i >= p && ks[i] == ks[p..][i - p];
      if p < i { CompareIsStrictOrder(ks[p], ks[i], k); }
    }
  }

  /** A tree of at most 4 keys is one node. */
  lemma SmallTreeVisits(t: Shape, h: nat, hash: nat, stop: NodeKey -> bool)
    requires Good(t, h, 1) && Sorted(Flat(t)) && |Flat(t)| <= TREE_NODECOUNT
    ensures EndsAtLeast(Visits(t, hash, stop), Flat(t), hash, stop)
  {
    HeightBound(t, h, 1);
    if h > 1 {
      Pow3Grows(1, h - 1);
      assert false;
    }
    if h == 1 {
      LeafVisits(t, hash, stop);
    }
  }
}
