/** The index key of the tree (struct node_key), its order, and what adding or
    removing one key does to a strictly ordered sequence of keys. */
module NodeKeys {

  datatype NodeKey = NodeKey(keyhash: nat, data_field: nat, data_offset: nat)

  /** The comparison of two whole keys; only its sign is used. */
  function Compare(a: NodeKey, b: NodeKey): (c: int)
    ensures c == 0 <==> a == b
  {
    if a == b then 0
    else if a.keyhash < b.keyhash then -1
    else if a.keyhash > b.keyhash then 1
    else if a.data_field < b.data_field then -1
    else if a.data_field > b.data_field then 1
    else if a.data_offset < b.data_offset then -1
    else 1
  }

  predicate Less(a: NodeKey, b: NodeKey) {
    Compare(a, b) < 0
  }

  /** Compare is a strict total order, compatible with the order of the hashes. */
  lemma CompareIsStrictOrder(a: NodeKey, b: NodeKey, c: NodeKey)
    ensures Compare(a, b) > 0 <==> Less(b, a)
    ensures Less(a, b) || a == b || Less(b, a)
    ensures Less(a, b) ==> !Less(b, a) && a != b
    ensures Less(a, b) && Less(b, c) ==> Less(a, c)
    ensures a.keyhash < b.keyhash ==> Less(a, b)
  {
  }

  /** The hash decides, then the file, then the place in the file. */
  lemma LessIsLexicographic(a: NodeKey, b: NodeKey)
    ensures a.keyhash != b.keyhash ==> (Less(a, b) <==> a.keyhash < b.keyhash)
    ensures a.keyhash == b.keyhash && a.data_field != b.data_field ==> (Less(a, b) <==> a.data_field < b.data_field)
    ensures a.keyhash == b.keyhash && a.data_field == b.data_field ==>
      (Less(a, b) <==> a.data_offset < b.data_offset)
  {
  }

  ghost predicate Sorted(s: seq<NodeKey>) {
    forall i, j :: 0 <= i < j < |s| ==> Less(s[i], s[j])
  }

  ghost predicate AllLess(s: seq<NodeKey>, k: NodeKey) {
    forall i :: 0 <= i < |s| ==> Less(s[i], k)
  }

  ghost predicate AllMore(s: seq<NodeKey>, k: NodeKey) {
    forall i :: 0 <= i < |s| ==> Less(k, s[i])
  }

  /** The sequence with `k` put before the first larger key. */
  ghost function Ins(s: seq<NodeKey>, k: NodeKey): (r: seq<NodeKey>) {
    if s == [] then [k]
    else if Less(k, s[0]) then [k] + s
    else [s[0]] + Ins(s[1..], k)
  }

  /** The sequence without the first occurrence of `k`. */
  ghost function Del(s: seq<NodeKey>, k: NodeKey): (r: seq<NodeKey>) {
    if s == [] then []
    else if s[0] == k then s[1..]
    else [s[0]] + Del(s[1..], k)
  }

  ghost function KeySet(s: seq<NodeKey>): (r: set<NodeKey>) {
    set k | k in s
  }

  lemma {:induction false} InsSorted(s: seq<NodeKey>, k: NodeKey)
    requires Sorted(s) && k !in s
    ensures Sorted(Ins(s, k))
    ensures KeySet(Ins(s, k)) == KeySet(s) + {k}
  {
    hide Compare;
    hide Less;
    if s == [] || Less(k, s[0]) {
      forall j | 0 <= j < |s| ensures s != [] ==> Less(k, s[j]) {
        CompareIsStrictOrder(k, s[0], s[j]);
      }
    } else {
      var r := s[1..];
      InsSorted(r, k);
      var x := Ins(r, k);
      CompareIsStrictOrder(s[0], k, k);
      forall j | 0 <= j < |x| ensures Less(s[0], x[j]) {
        assert x[j] in KeySet(x);
        if x[j] != k {
          var i :| 0 <= i < |r| && r[i] == x[j];
          assert r[i] == s[i + 1];
        }
      }
      assert KeySet(s) == {s[0]} + KeySet(r);
      assert KeySet([s[0]] + x) == {s[0]} + KeySet(x);
    }
  }

  lemma {:induction false} KeySetSize(s: seq<NodeKey>)
    requires Sorted(s)
    ensures |KeySet(s)| == |s|
  {
    if s != [] {
      var r := s[1..];
      KeySetSize(r);
      CompareIsStrictOrder(s[0], s[0], s[0]);
      assert s[0] !in r;
      assert KeySet(s) == {s[0]} + KeySet(r);
    }
  }

  /** What adding `k` once does to the set of keys. */
  lemma AddedKeys(s: seq<NodeKey>, k: NodeKey, s': seq<NodeKey>)
    requires Sorted(s) && s' == if k in s then s else Ins(s, k)
    ensures Sorted(s') && KeySet(s') == KeySet(s) + {k}
  {
    if k !in s {
      InsSorted(s, k);
    }
  }

  lemma SortedOnce(s: seq<NodeKey>, k: NodeKey)
    requires Sorted(s)
    ensures multiset(s)[k] <= 1
  {
    if k in s {
      var i :| 0 <= i < |s| && s[i] == k;
      assert s == s[..i] + [s[i]] + s[i + 1..];
      CompareIsStrictOrder(k, k, k);
      assert k !in s[..i] && k !in s[i + 1..];
    }
  }

  /** A selection from a strictly ordered sequence has no key twice. */
  lemma OnceEach(s: seq<NodeKey>, v: seq<NodeKey>)
    requires Sorted(s) && multiset(v) <= multiset(s)
    ensures forall i, j :: 0 <= i < j < |v| ==> v[i] != v[j]
    ensures forall k :: k in v ==> k in s
  {
    forall i, j | 0 <= i < j < |v| ensures v[i] != v[j] {
      SortedOnce(s, v[i]);
      assert v == v[..i] + [v[i]] + v[i + 1..j] + [v[j]] + v[j + 1..];
    }
    forall k | k in v ensures k in s {
      assert k in multiset(v);
    }
  }

  lemma {:induction false} DelSorted(s: seq<NodeKey>, k: NodeKey)
    requires Sorted(s)
    ensures Sorted(Del(s, k))
    ensures KeySet(Del(s, k)) == KeySet(s) - {k}
  {
    hide Compare;
    hide Less;
    if s == [] {
    } else {
      var r := s[1..];
      assert KeySet(s) == {s[0]} + KeySet(r);
      forall y | y in r ensures y != s[0] && Less(s[0], y) {
        var i :| 0 <= i < |r| && r[i] == y;
        assert s[i + 1] == y;
        CompareIsStrictOrder(s[0], y, y);
      }
      if s[0] != k {
        DelSorted(r, k);
        var x := Del(r, k);
        forall j | 0 <= j < |x| ensures Less(s[0], x[j]) {
          assert x[j] in KeySet(x);
        }
        assert KeySet([s[0]] + x) == {s[0]} + KeySet(x);
      }
    }
  }

  lemma {:induction false} DelAbsent(s: seq<NodeKey>, k: NodeKey)
    requires k !in s
    ensures Del(s, k) == s
  {
    if s != [] {
      DelAbsent(s[1..], k);
    }
  }

  /** Adding a key that falls between `p` and `q` only changes the middle part. */
  lemma {:induction false} InsInMiddle(p: seq<NodeKey>, x: seq<NodeKey>, q: seq<NodeKey>, k: NodeKey)
    requires AllLess(p, k) && AllMore(q, k)
    ensures Ins(p + x + q, k) == p + Ins(x, k) + q
    decreases |p|, |x|
  {
    hide Compare;
    hide Less;
    var s := p + x + q;
    if p != [] {
      CompareIsStrictOrder(p[0], k, k);
      assert Less(p[0], k) && s[0] == p[0];
      assert s[1..] == p[1..] + x + q;
      InsInMiddle(p[1..], x, q, k);
      assert p + Ins(x, k) + q == [p[0]] + (p[1..] + Ins(x, k) + q);
    } else if x == [] {
      assert s == q && p + [k] + q == [k] + q;
      assert q == [] || Less(k, q[0]);
    } else if Less(k, x[0]) {
      assert p + ([k] + x) + q == [k] + s;
    } else {
      assert s[1..] == p + x[1..] + q;
      InsInMiddle(p, x[1..], q, k);
      assert p + ([x[0]] + Ins(x[1..], k)) + q == [x[0]] + (p + Ins(x[1..], k) + q);
    }
  }

  /** Removing a key of the middle part that is not in `p` only changes the middle part. */
  lemma {:induction false} DelInMiddle(p: seq<NodeKey>, x: seq<NodeKey>, q: seq<NodeKey>, k: NodeKey)
    requires k !in p && (k in x || k !in q)
    ensures Del(p + x + q, k) == p + Del(x, k) + q
    decreases |p|, |x|
  {
    var s := p + x + q;
    if p != [] {
      assert s[1..] == p[1..] + x + q;
      DelInMiddle(p[1..], x, q, k);
    } else if x != [] {
      assert s[1..] == p + x[1..] + q;
      if x[0] != k {
        DelInMiddle(p, x[1..], q, k);
      }
    } else {
      assert s == q;
      DelAbsent(q, k);
    }
  }
}
