/** A key that is stored again: at which of its entries the next search ends, and which value is there. */
module RepeatedStores {
  import opened Common
  import opened NodeKeys
  import opened Shapes
  import opened ShapeInsertion
  import opened HashVisits
  import opened RightEdge
  import opened TreeInstances
  import opened DataFiles
  import opened Databases

  // ---- any index ----

  /** The tree of the hash after a store that ended in `s`. */
  ghost function TreeAfter(t0: Shape, s: StoreResult): (t: Shape) {
    if s.Stored? then AddShape(t0, s.entry) else t0
  }

  /** The entries of `key` after it was stored. */
  ghost function OwnAfter(l0: Lives, key: Bytes, s: StoreResult): (own: NodeKey -> bool) {
    k => (s.Stored? && k == s.entry) || Owns(l0, key, k)
  }

  /** The entry at which the next search ends, from the state before the store. */
  ghost function EntryFound(l0: Lives, t0: Shape, hash: nat, key: Bytes, s: StoreResult): (e: Option<NodeKey>) {
    LastFor(Visits(TreeAfter(t0, s), hash, OwnAfter(l0, key, s)), OwnAfter(l0, key, s))
  }

  /** The item of entry `e` gets the new value: the entry is new, or the store calls back for it and the value
      fits over the old one. */
  ghost predicate GetsNew(l0: Lives, t0: Shape, hash: nat, key: Bytes, val: Bytes, s: StoreResult, e: NodeKey) {
    || (s.Stored? && e == s.entry)
    || (Owns(l0, key, e) && e in CallsFor(l0, t0, hash, key) && FitsOver(ItemOf(l0, e), val))
  }

  /** Storing a key again, whatever entries it has and whatever else is in the index: what the next search
      returns follows from the state before the store. It is the new value exactly if the search ends at an
      entry that gets it, or that had this value already. */
  method StoreThenSearch(db: Database, key: Bytes, val: Bytes) returns (s: StoreResult, r: Option<Bytes>)
    requires db.Valid() && Storable(Item(key, val))
    modifies db`used, db.Repr()
    ensures s == ResultOf(old(db.used), db.safe_hash(key), PagesOf(Item(key, val)))
    ensures var l0, t0, hash := old(db.AllLives()), old(db.inst.TreeOf(db.safe_hash(key))), db.safe_hash(key);
      var e := EntryFound(l0, t0, hash, key, s);
      !s.Truncated() ==>
        && r == (if e.Some? && GetsNew(l0, t0, hash, key, val, s, e.value) then Some(val) else ValueAt(l0, e))
        && (r == Some(val) <==>
            e.Some? && (GetsNew(l0, t0, hash, key, val, s, e.value) || ItemOf(l0, e.value).val == val))
  {
    hide StoreDone;
    hide AllPoint;
    hide PagesOf;
    hide ResultOf;
    hide Database.AllLives;
    hide Database.AllPacked;
    hide Database.FilesOk;
    hide TreeInstance.Valid;
    hide TreeInstance.TreeOf;
    hide TreeDone;
    hide Renewed;
    hide ValuesOf;
    hide CallsFor;
    ghost var l0, k0, u0, t0 := db.AllLives(), db.inst.keys, db.used, db.inst.TreeOf(db.safe_hash(key));
    s := db.Store(key, val);
    DoneCounts(s, db.safe_hash, l0, k0, u0, db.AllLives(), db.inst.keys, db.used, Item(key, val));
    r := None;
    if !s.Truncated() {
      r := db.Search(key);
      db.inst.TreeKeys(db.safe_hash(key));
      FoundAgain(s, db.safe_hash, l0, k0, u0, t0, db.AllLives(), db.inst.keys, db.used,
        db.inst.TreeOf(db.safe_hash(key)), key, val);
    }
  }

  /** After a store the entries of its key are the old ones and the new one. */
  lemma OwnsAfter(s: StoreResult, safe_hash: Bytes -> nat, l0: Lives, k0: set<NodeKey>, u0: seq<nat>, l2: Lives,
                  k2: set<NodeKey>, u2: seq<nat>, called: seq<NodeKey>, key: Bytes, val: Bytes)
    requires !s.Truncated() && StoreDone(s, safe_hash, l0, k0, u0, l2, k2, u2, key, val)
    requires Renewed(l0, l2, safe_hash, k0, called, key, val)
    ensures forall k :: k in k2 ==> Owns(l2, key, k) == OwnAfter(l0, key, s)(k)
    ensures s.Stored? ==> ItemOf(l2, s.entry) == Item(key, val) && s.entry !in k0
  {
    hide PagesOf;
    hide ResultOf;
    hide ValuesStored;
    hide ValuesOf;
    forall k | k in k2 ensures Owns(l2, key, k) == OwnAfter(l0, key, s)(k) {
      if k in k0 {
        assert Points(l0, safe_hash, k) && Points(l2, safe_hash, k);
      }
    }
  }

  lemma {:induction false} LastAgree(calls: seq<NodeKey>, own: NodeKey -> bool, own': NodeKey -> bool)
    requires forall k :: k in calls ==> own(k) == own'(k)
    ensures LastFor(calls, own) == LastFor(calls, own')
  {
    if calls != [] {
      LastAgree(calls[..|calls| - 1], own, own');
    }
  }

  /** The entry found does not depend on the bytes, nor on which blocks the tree is in. */
  lemma SameEntryFound(l0: Lives, t0: Shape, hash: nat, l2: Lives, t2: Shape, key: Bytes, s: StoreResult)
    requires Alike(t2, TreeAfter(t0, s)) && forall k :: k in Flat(t2) ==> Owns(l2, key, k) == OwnAfter(l0, key, s)(k)
    ensures LastFor(CallsFor(l2, t2, hash, key), ForKey(l2, key)) == EntryFound(l0, t0, hash, key, s)
    ensures EntryFound(l0, t0, hash, key, s).Some? ==> EntryFound(l0, t0, hash, key, s).value in Flat(t2)
  {
    var own := OwnAfter(l0, key, s);
    var calls := Visits(t2, hash, own);
    forall k | k in Flat(t2) ensures ForKey(l2, key)(k) == own(k) {
    }
    VisitsAgree(t2, hash, ForKey(l2, key), own);
    AlikeVisits(t2, TreeAfter(t0, s), hash, own);
    VisitsWithin(t2, hash, own);
    forall k | k in calls ensures k in Flat(t2) {
      assert multiset(calls)[k] > 0;
      assert multiset(Flat(t2))[k] > 0;
    }
    LastAgree(calls, ForKey(l2, key), own);
  }

  lemma FoundAgain(s: StoreResult, safe_hash: Bytes -> nat, l0: Lives, k0: set<NodeKey>, u0: seq<nat>, t0: Shape,
                   l2: Lives, k2: set<NodeKey>, u2: seq<nat>, t2: Shape, key: Bytes, val: Bytes)
    requires !s.Truncated() && StoreDone(s, safe_hash, l0, k0, u0, l2, k2, u2, key, val)
    requires Renewed(l0, l2, safe_hash, k0, CallsFor(l0, t0, safe_hash(key), key), key, val)
    requires TreeDone(s, t0, t2) && forall k :: k in Flat(t2) ==> k in k2
    ensures var e := EntryFound(l0, t0, safe_hash(key), key, s);
      && ValueAt(l2, LastFor(CallsFor(l2, t2, safe_hash(key), key), ForKey(l2, key))) ==
         (if e.Some? && GetsNew(l0, t0, safe_hash(key), key, val, s, e.value) then Some(val) else ValueAt(l0, e))
      && (e.Some? && !GetsNew(l0, t0, safe_hash(key), key, val, s, e.value) ==> Owns(l0, key, e.value))
  {
    hide CallsFor;
    hide FitsOver;
    OwnsAfter(s, safe_hash, l0, k0, u0, l2, k2, u2, CallsFor(l0, t0, safe_hash(key), key), key, val);
    AlikeSelf(t0);
    SameEntryFound(l0, t0, safe_hash(key), l2, t2, key, s);
    var e := EntryFound(l0, t0, safe_hash(key), key, s);
    hide EntryFound;
    hide ValuesStored;
    hide EntryFits;
    hide ResultOf;
    hide UsedAfter;
    hide PagesOf;
    hide Flat;
    if e.Some? {
      assert e.value in k2 && OwnAfter(l0, key, s)(e.value);
      if e.value in k0 {
        assert Points(l0, safe_hash, e.value) && Points(l2, safe_hash, e.value);
      }
    }
  }

  // ---- one key alone in a new database ----

  /** The pages that the items of `key` with these values take. */
  function PagesOfAll(key: Bytes, vals: seq<Bytes>): (n: nat) {
    if vals == [] then 0
    else PagesOfAll(key, vals[..|vals| - 1]) + PagesOf(Item(key, vals[|vals| - 1]))
  }

  /** The entry of store number `i`. */
  function NthEntry(hash: nat, key: Bytes, vals: seq<Bytes>, i: nat): (e: NodeKey)
    requires i <= |vals|
  {
    NodeKey(hash, hash % IPC_DATAFILE_MAX, OffsetOf(1 + PagesOfAll(key, vals[..i])))
  }

  ghost function Entries(hash: nat, key: Bytes, vals: seq<Bytes>, n: nat): (es: seq<NodeKey>)
    requires n <= |vals|
    ensures |es| == n
  {
    seq(n, i requires 0 <= i < n => NthEntry(hash, key, vals, i))
  }

  /** The value in an item that held `v`, after `later` were stored over it one by one. */
  function Held(key: Bytes, v: Bytes, later: seq<Bytes>): (w: Bytes) {
    if later == [] then v
    else
      var w := Held(key, v, later[..|later| - 1]);
      if FitsOver(Item(key, w), later[|later| - 1]) then later[|later| - 1] else w
  }

  /** The number of the first key in a root with `g` levels below it. */
  ghost function RootAt(g: nat): (c: nat)
    ensures c + 1 == Pow3(g)
  {
    Pow3Positive(g);
    Pow3(g) - 1
  }

  /** The number of stores that give the tree `g` levels below its root. */
  ghost function Reached(g: nat): (n: nat)
    ensures n + 1 == 2 * Pow3(g) && RootAt(g) < n
  {
    Pow3Positive(g);
    2 * Pow3(g) - 1
  }

  /** The items of the first `n` stores, when the first key of the root is number `c` and is there since store
      number `since`: the later stores were offered to that item alone. */
  ghost predicate Items(lives: Lives, hash: nat, key: Bytes, vals: seq<Bytes>, n: nat, c: nat, since: nat) {
    && c < since <= n <= |vals|
    && (forall i :: 0 <= i < n ==> Owns(lives, key, NthEntry(hash, key, vals, i)))
    && (forall i :: c < i < n ==> ItemOf(lives, NthEntry(hash, key, vals, i)).val == vals[i])
    && ItemOf(lives, NthEntry(hash, key, vals, c)).val == Held(key, vals[c], vals[since..n])
  }

  /** The tree of height `h` and the items after the first `n` stores. */
  ghost predicate Column(lives: Lives, t: Shape, h: nat, hash: nat, key: Bytes, vals: seq<Bytes>, n: nat) {
    && n <= |vals| && Lean(t, h, 1) && Flat(t) == Entries(hash, key, vals, n)
    && (h == 0 <==> n == 0)
    && (h > 0 ==> Items(lives, hash, key, vals, n, RootAt(h - 1), Reached(h - 1)))
  }

  lemma {:induction false} PagesGrow(key: Bytes, vals: seq<Bytes>, i: nat, j: nat)
    requires i <= j <= |vals|
    ensures PagesOfAll(key, vals[..i]) + (if i < j then PagesOf(Item(key, vals[i])) else 0)
      <= PagesOfAll(key, vals[..j])
    decreases j
  {
    if i < j {
      assert vals[..j][..j - 1] == vals[..j - 1];
      PagesGrow(key, vals, i, j - 1);
    }
  }

  /** The entries come in ascending order. */
  lemma EntriesGrow(hash: nat, key: Bytes, vals: seq<Bytes>, i: nat, j: nat)
    requires i < j <= |vals|
    ensures Less(NthEntry(hash, key, vals, i), NthEntry(hash, key, vals, j))
  {
    PagesGrow(key, vals, i, j);
    hide PagesOf;
  }

  /** A search for the key calls back for the first key of the root and no other. */
  lemma RootCalled(lives: Lives, t: Shape, h: nat, hash: nat, key: Bytes, vals: seq<Bytes>, n: nat)
    requires Column(lives, t, h, hash, key, vals, n) && h > 0
    ensures CallsFor(lives, t, hash, key) == [NthEntry(hash, key, vals, RootAt(h - 1))]
  {
    hide Flat;
    hide Visits;
    hide PagesOfAll;
    hide Held;
    RootKey(t, h);
    assert t.ks[0] == NthEntry(hash, key, vals, RootAt(h - 1));
    RootFirst(t, hash, ForKey(lives, key));
  }

  lemma AddedAtEnd(t0: Shape, t2: Shape, h: nat, hash: nat, key: Bytes, vals: seq<Bytes>, n: nat)
    requires n < |vals| && Lean(t0, h, 1) && Flat(t0) == Entries(hash, key, vals, n)
    requires Grew(t0, t2, NthEntry(hash, key, vals, n))
    ensures Flat(t2) == Entries(hash, key, vals, n + 1)
    ensures h > 0 ==> Lean(t2, h, 1) || Lean(t2, h + 1, 1)
    ensures h == 0 ==> Lean(t2, 1, 1)
  {
    hide Alike;
    hide NthEntry;
    hide PagesOf;
    hide Less;
    hide Lean;
    hide AddShape;
    var k, es := NthEntry(hash, key, vals, n), Entries(hash, key, vals, n);
    forall i | 0 <= i < n ensures Less(es[i], k) {
      EntriesGrow(hash, key, vals, i, n);
    }
    CompareIsStrictOrder(k, k, k);
    InsInMiddle(es, [], [], k);
    assert es + [] + [] == es && Ins([], k) == [k];
    assert Flat(t2) == es + [k];
    hide *;
    LeanAdded(t0, t2, h, k);
  }

  lemma LeanAdded(t0: Shape, t2: Shape, h: nat, k: NodeKey)
    requires Lean(t0, h, 1) && AllLess(Flat(t0), k) && Alike(t2, AddShape(t0, k))
    ensures h > 0 ==> Lean(t2, h, 1) || Lean(t2, h + 1, 1)
    ensures h == 0 ==> Lean(t2, 1, 1)
  {
    hide Flat;
    hide Lean;
    hide Alike;
    EdgeAdds(t0, h, k);
    LeanAlike(t2, AddShape(t0, k), if InsShape(t0, k).Kept? then h else h + 1, 1);
  }

  /** What one more store makes of the items: the value is offered to the item of entry `c` alone. */
  ghost predicate Offered(l0: Lives, l2: Lives, hash: nat, key: Bytes, vals: seq<Bytes>, n: nat, c: nat)
    requires n < |vals|
  {
    && Owns(l2, key, NthEntry(hash, key, vals, n)) && ItemOf(l2, NthEntry(hash, key, vals, n)).val == vals[n]
    && (forall i :: 0 <= i < n ==>
         var e := NthEntry(hash, key, vals, i);
         && Owns(l0, key, e) && Owns(l2, key, e)
         && ItemOf(l2, e).val == if i == c && FitsOver(ItemOf(l0, e), vals[n]) then vals[n] else ItemOf(l0, e).val)
  }

  lemma RenewedOffered(l0: Lives, l2: Lives, safe_hash: Bytes -> nat, keys: set<NodeKey>, key: Bytes,
                       vals: seq<Bytes>, n: nat, c: nat)
    requires n < |vals| && c < n
    requires Renewed(l0, l2, safe_hash, keys, [NthEntry(safe_hash(key), key, vals, c)], key, vals[n])
    requires forall i :: 0 <= i < n ==>
      NthEntry(safe_hash(key), key, vals, i) in keys && Owns(l0, key, NthEntry(safe_hash(key), key, vals, i))
    requires Owns(l2, key, NthEntry(safe_hash(key), key, vals, n))
      && ItemOf(l2, NthEntry(safe_hash(key), key, vals, n)).val == vals[n]
    ensures Offered(l0, l2, safe_hash(key), key, vals, n, c)
  {
    hide FitsOver;
    forall i | 0 <= i < n
      ensures Points(l2, safe_hash, NthEntry(safe_hash(key), key, vals, i))
      ensures i != c ==> NthEntry(safe_hash(key), key, vals, i) != NthEntry(safe_hash(key), key, vals, c)
    {
      if i != c {
        EntriesGrow(safe_hash(key), key, vals, if i < c then i else c, if i < c then c else i);
      }
    }
    hide NthEntry;
  }

  lemma HeldStep(key: Bytes, v: Bytes, vals: seq<Bytes>, since: nat, n: nat)
    requires since <= n < |vals|
    ensures Held(key, v, vals[since..n + 1]) ==
      var w := Held(key, v, vals[since..n]);
      if FitsOver(Item(key, w), vals[n]) then vals[n] else w
  {
    assert vals[since..n + 1][..n - since] == vals[since..n];
    hide FitsOver;
  }

  lemma ItemsStep(l0: Lives, l2: Lives, hash: nat, key: Bytes, vals: seq<Bytes>, n: nat, c: nat, since: nat)
    requires n < |vals| && Items(l0, hash, key, vals, n, c, since) && Offered(l0, l2, hash, key, vals, n, c)
    ensures Items(l2, hash, key, vals, n + 1, c, since)
  {
    HeldStep(key, vals[c], vals, since, n);
    hide NthEntry;
    hide FitsOver;
    hide Held;
    assert ItemOf(l0, NthEntry(hash, key, vals, c)).key == key;
  }

  /** Once the root is split, its first key leads to an item to which nothing was offered yet. */
  lemma ItemsSplit(lives: Lives, hash: nat, key: Bytes, vals: seq<Bytes>, n: nat, c: nat, since: nat, d: nat)
    requires Items(lives, hash, key, vals, n, c, since) && c < d < n
    ensures Items(lives, hash, key, vals, n, d, n)
  {
    hide NthEntry;
  }

  /** Where the tree gets one level more, its size is known. */
  lemma SplitSize(t0: Shape, t2: Shape, h: nat)
    requires h > 0 && Lean(t0, h, 1) && Lean(t2, h + 1, 1) && |Flat(t2)| == |Flat(t0)| + 1
    ensures Reached(h) == |Flat(t2)| && RootAt(h) > RootAt(h - 1)
  {
    LeanSize(t0, h, 1);
    LeanSize(t2, h + 1, 1);
    hide Lean;
    hide Flat;
  }

  lemma FirstItem(l0: Lives, l2: Lives, hash: nat, key: Bytes, vals: seq<Bytes>)
    requires vals != [] && Offered(l0, l2, hash, key, vals, 0, 0)
    ensures RootAt(0) == 0 && Reached(0) == 1 && Items(l2, hash, key, vals, 1, 0, 1)
  {
    assert Pow3(0) == 1;
    hide NthEntry;
  }

  /** The tree and the items after the first store. */
  lemma FirstStep(l0: Lives, t0: Shape, l2: Lives, t2: Shape, hash: nat, key: Bytes, vals: seq<Bytes>)
    requires vals != [] && Column(l0, t0, 0, hash, key, vals, 0) && Grew(t0, t2, NthEntry(hash, key, vals, 0))
    requires Offered(l0, l2, hash, key, vals, 0, 0)
    ensures Column(l2, t2, 1, hash, key, vals, 1)
  {
    hide *;
    NoItems(l0, t0, hash, key, vals);
    AddedAtEnd(t0, t2, 0, hash, key, vals, 0);
    FirstItem(l0, l2, hash, key, vals);
    IsColumn(l2, t2, 1, hash, key, vals, 1);
  }

  lemma NoItems(lives: Lives, t: Shape, hash: nat, key: Bytes, vals: seq<Bytes>)
    requires Column(lives, t, 0, hash, key, vals, 0)
    ensures Lean(t, 0, 1) && Flat(t) == Entries(hash, key, vals, 0)
  {
  }

  /** After one more store: the height stays, or it grows by one. */
  lemma ColumnStep(l0: Lives, t0: Shape, h: nat, l2: Lives, t2: Shape, hash: nat, key: Bytes, vals: seq<Bytes>, n: nat)
    requires n < |vals| && h > 0 && Column(l0, t0, h, hash, key, vals, n)
    requires Grew(t0, t2, NthEntry(hash, key, vals, n)) && Offered(l0, l2, hash, key, vals, n, RootAt(h - 1))
    ensures Column(l2, t2, h, hash, key, vals, n + 1) || Column(l2, t2, h + 1, hash, key, vals, n + 1)
  {
    hide *;
    ColumnParts(l0, t0, h, hash, key, vals, n);
    AddedAtEnd(t0, t2, h, hash, key, vals, n);
    ItemsStep(l0, l2, hash, key, vals, n, RootAt(h - 1), Reached(h - 1));
    if Lean(t2, h, 1) {
      IsColumn(l2, t2, h, hash, key, vals, n + 1);
    } else {
      ColumnSplit(l2, t0, t2, h, hash, key, vals, n);
    }
  }

  lemma ColumnSplit(l2: Lives, t0: Shape, t2: Shape, h: nat, hash: nat, key: Bytes, vals: seq<Bytes>, n: nat)
    requires n < |vals| && h > 0 && Lean(t0, h, 1) && |Flat(t0)| == n
    requires Lean(t2, h + 1, 1) && Flat(t2) == Entries(hash, key, vals, n + 1)
    requires Items(l2, hash, key, vals, n + 1, RootAt(h - 1), Reached(h - 1))
    ensures Column(l2, t2, h + 1, hash, key, vals, n + 1)
  {
    hide *;
    SplitSize(t0, t2, h);
    ItemsSplit(l2, hash, key, vals, n + 1, RootAt(h - 1), Reached(h - 1), RootAt(h));
    IsColumn(l2, t2, h + 1, hash, key, vals, n + 1);
  }

  lemma ColumnParts(lives: Lives, t: Shape, h: nat, hash: nat, key: Bytes, vals: seq<Bytes>, n: nat)
    requires Column(lives, t, h, hash, key, vals, n) && h > 0
    ensures 0 < n <= |vals| && Lean(t, h, 1) && Flat(t) == Entries(hash, key, vals, n)
    ensures Items(lives, hash, key, vals, n, RootAt(h - 1), Reached(h - 1))
  {
  }

  lemma IsColumn(lives: Lives, t: Shape, h: nat, hash: nat, key: Bytes, vals: seq<Bytes>, n: nat)
    requires 0 < n <= |vals| && h > 0 && Lean(t, h, 1) && Flat(t) == Entries(hash, key, vals, n)
    requires Items(lives, hash, key, vals, n, RootAt(h - 1), Reached(h - 1))
    ensures Column(lives, t, h, hash, key, vals, n)
  {
  }

  /** Some height fits. */
  ghost predicate Grown(lives: Lives, t: Shape, hash: nat, key: Bytes, vals: seq<Bytes>, n: nat) {
    exists h: nat :: Column(lives, t, h, hash, key, vals, n)
  }

  lemma NothingYet(lives: Lives, hash: nat, key: Bytes, vals: seq<Bytes>)
    ensures Grown(lives, Nil, hash, key, vals, 0)
  {
    assert Column(lives, Nil, 0, hash, key, vals, 0);
  }

  /** The values can be stored, all in the file that the hash selects, and every offset fits into its entry. */
  predicate Room(key: Bytes, vals: seq<Bytes>) {
    && (forall i :: 0 <= i < |vals| ==> Storable(Item(key, vals[i])))
    && PagesLeft(0, PagesOfAll(key, vals))
    && (vals != [] ==> OffsetOf(1 + PagesOfAll(key, vals[..|vals| - 1])) < OFFSET_LIMIT)
  }

  /** Where store number `n` puts its item and its entry. */
  lemma NthStored(s: StoreResult, safe_hash: Bytes -> nat, l0: Lives, k0: set<NodeKey>, u0: seq<nat>, l2: Lives,
                  k2: set<NodeKey>, u2: seq<nat>, key: Bytes, vals: seq<Bytes>, n: nat)
    requires safe_hash(key) != 0 && n < |vals| && Room(key, vals)
    requires |u0| == IPC_DATAFILE_MAX && u0[safe_hash(key) % IPC_DATAFILE_MAX] == PagesOfAll(key, vals[..n])
    requires StoreDone(s, safe_hash, l0, k0, u0, l2, k2, u2, key, vals[n])
    ensures s.Stored? && !s.Truncated() && s.entry == NthEntry(safe_hash(key), key, vals, n)
    ensures |u2| == IPC_DATAFILE_MAX && u2[safe_hash(key) % IPC_DATAFILE_MAX] == PagesOfAll(key, vals[..n + 1])
    ensures Owns(l2, key, s.entry) && ItemOf(l2, s.entry).val == vals[n]
  {
    NthResult(safe_hash(key), u0, key, vals, n);
    hide Room;
    hide PagesOf;
    hide PagesOfAll;
    hide ResultOf;
    hide UsedAfter;
    hide ValuesStored;
    hide ValuesOf;
    hide NthEntry;
    assert Points(l2, safe_hash, s.entry);
  }

  lemma PagesUpTo(key: Bytes, vals: seq<Bytes>, n: nat)
    requires n < |vals|
    ensures PagesOfAll(key, vals[..n + 1]) == PagesOfAll(key, vals[..n]) + PagesOf(Item(key, vals[n]))
      <= PagesOfAll(key, vals)
    ensures PagesOfAll(key, vals[..n]) <= PagesOfAll(key, vals[..|vals| - 1])
  {
    hide *;
    PagesStep(key, vals, n);
    PagesGrow(key, vals, n + 1, |vals|);
    PagesGrow(key, vals, n, |vals| - 1);
    assert vals[..|vals|] == vals;
  }

  lemma PagesStep(key: Bytes, vals: seq<Bytes>, n: nat)
    requires n < |vals|
    ensures PagesOfAll(key, vals[..n + 1]) == PagesOfAll(key, vals[..n]) + PagesOf(Item(key, vals[n]))
  {
    hide PagesOf;
    assert vals[..n + 1][..n] == vals[..n];
  }

  /** It holds at every store. */
  lemma RoomAt(key: Bytes, vals: seq<Bytes>, n: nat)
    requires n < |vals| && Room(key, vals)
    ensures PagesOfAll(key, vals[..n + 1]) == PagesOfAll(key, vals[..n]) + PagesOf(Item(key, vals[n]))
    ensures PagesLeft(PagesOfAll(key, vals[..n]), PagesOf(Item(key, vals[n])))
    ensures OffsetOf(1 + PagesOfAll(key, vals[..n])) < OFFSET_LIMIT
  {
    PagesUpTo(key, vals, n);
    hide PagesOf;
    hide PagesOfAll;
    hide Storable;
  }

  lemma NthResult(hash: nat, u0: seq<nat>, key: Bytes, vals: seq<Bytes>, n: nat)
    requires hash != 0 && n < |vals| && Room(key, vals)
    requires |u0| == IPC_DATAFILE_MAX && u0[hash % IPC_DATAFILE_MAX] == PagesOfAll(key, vals[..n])
    ensures var s := ResultOf(u0, hash, PagesOf(Item(key, vals[n])));
      s.Stored? && !s.Truncated() && s.entry == NthEntry(hash, key, vals, n)
    ensures var m := hash % IPC_DATAFILE_MAX;
      UsedAfter(u0, m, PagesOf(Item(key, vals[n]))) == u0[m := PagesOfAll(key, vals[..n + 1])]
  {
    RoomAt(key, vals, n);
    hide Room;
    hide PagesOf;
    hide PagesOfAll;
    hide OffsetOf;
    hide PagesLeft;
    HomeTakes(u0, hash, PagesOf(Item(key, vals[n])));
    hide FileFor;
    hide ResultOf;
    hide UsedAfter;
    WholeEntry(hash, hash % IPC_DATAFILE_MAX, OffsetOf(1 + PagesOfAll(key, vals[..n])));
  }

  /** One store on from a column. */
  lemma GrownStep(s: StoreResult, safe_hash: Bytes -> nat, l0: Lives, k0: set<NodeKey>, t0: Shape, l2: Lives, t2: Shape,
                  key: Bytes, vals: seq<Bytes>, n: nat)
    requires n < |vals| && Grown(l0, t0, safe_hash(key), key, vals, n)
    requires s.Stored? && s.entry == NthEntry(safe_hash(key), key, vals, n) && TreeDone(s, t0, t2)
    requires Owns(l2, key, s.entry) && ItemOf(l2, s.entry).val == vals[n]
    requires forall k :: k in Flat(t0) ==> k in k0
    requires Renewed(l0, l2, safe_hash, k0, CallsFor(l0, t0, safe_hash(key), key), key, vals[n])
    ensures Grown(l2, t2, safe_hash(key), key, vals, n + 1)
  {
    hide CallsFor;
    hide NthEntry;
    hide Grew;
    hide Lean;
    var hash := safe_hash(key);
    var h: nat :| Column(l0, t0, h, hash, key, vals, n);
    if h == 0 {
      FirstStep(l0, t0, l2, t2, hash, key, vals);
    } else {
      RootCalled(l0, t0, h, hash, key, vals, n);
      forall i | 0 <= i < n ensures NthEntry(hash, key, vals, i) in k0 {
        assert Flat(t0)[i] == NthEntry(hash, key, vals, i);
      }
      RenewedOffered(l0, l2, safe_hash, k0, key, vals, n, RootAt(h - 1));
      ColumnStep(l0, t0, h, l2, t2, hash, key, vals, n);
    }
  }

  /** Any number of stores of one key in a new database. When they give the tree `g` levels below its root, the
      search ends at the entry of store number 3^g - 1: it returns what became of that store's value under
      the stores that came after the root was split the last time. */
  method StoreMany(safe_hash: Bytes -> nat, key: Bytes, vals: seq<Bytes>) returns (r: Option<Bytes>)
    requires safe_hash(key) != 0 && vals != [] && Room(key, vals)
    ensures forall g: nat :: Reached(g) <= |vals| < Reached(g + 1) ==>
      r == Some(Held(key, vals[RootAt(g)], vals[Reached(g)..]))
  {
    hide Grown;
    hide Room;
    hide PagesOf;
    hide Held;
    hide Database.AllLives;
    hide Database.AllPacked;
    hide Database.FilesOk;
    hide TreeInstance.Valid;
    hide TreeInstance.TreeOf;
    hide AllPoint;
    var db := new Database(safe_hash);
    NothingYet(db.AllLives(), safe_hash(key), key, vals);
    assert db.inst.TreeOf(safe_hash(key)) == Nil;
    for n := 0 to |vals|
      invariant db.Valid() && db.safe_hash == safe_hash && |db.used| == IPC_DATAFILE_MAX
      invariant db.used[safe_hash(key) % IPC_DATAFILE_MAX] == PagesOfAll(key, vals[..n])
      invariant Grown(db.AllLives(), db.inst.TreeOf(safe_hash(key)), safe_hash(key), key, vals, n)
    {
      StoreNth(db, key, vals, n);
    }
    r := db.Search(key);
    GrownFound(db.AllLives(), db.inst.TreeOf(safe_hash(key)), safe_hash(key), key, vals);
  }

  method StoreNth(db: Database, key: Bytes, vals: seq<Bytes>, n: nat)
    requires db.Valid() && |db.used| == IPC_DATAFILE_MAX && db.safe_hash(key) != 0 && n < |vals| && Room(key, vals)
    requires db.used[db.safe_hash(key) % IPC_DATAFILE_MAX] == PagesOfAll(key, vals[..n])
    requires Grown(db.AllLives(), db.inst.TreeOf(db.safe_hash(key)), db.safe_hash(key), key, vals, n)
    modifies db`used, db.Repr()
    ensures db.Valid() && |db.used| == IPC_DATAFILE_MAX
    ensures db.used[db.safe_hash(key) % IPC_DATAFILE_MAX] == PagesOfAll(key, vals[..n + 1])
    ensures Grown(db.AllLives(), db.inst.TreeOf(db.safe_hash(key)), db.safe_hash(key), key, vals, n + 1)
  {
    assert Storable(Item(key, vals[n]));
    hide Storable;
    hide Grown;
    hide Room;
    hide StoreDone;
    hide TreeDone;
    hide Renewed;
    hide CallsFor;
    hide AllPoint;
    hide Database.AllLives;
    hide Database.AllPacked;
    hide Database.FilesOk;
    hide TreeInstance.Valid;
    hide TreeInstance.TreeOf;
    ghost var l0, k0, u0, t0 := db.AllLives(), db.inst.keys, db.used, db.inst.TreeOf(db.safe_hash(key));
    db.inst.TreeKeys(db.safe_hash(key));
    var s := db.Store(key, vals[n]);
    NthStored(s, db.safe_hash, l0, k0, u0, db.AllLives(), db.inst.keys, db.used, key, vals, n);
    GrownStep(s, db.safe_hash, l0, k0, t0, db.AllLives(), db.inst.TreeOf(db.safe_hash(key)), key, vals, n);
  }

  /** A size belongs to one number of levels only. */
  lemma SameLevels(n: nat, g: nat, g': nat)
    requires Reached(g) <= n < Reached(g + 1) && Reached(g') <= n < Reached(g' + 1)
    ensures g' == g
  {
    if g < g' {
      Pow3Grows(g + 1, g');
    }
    if g' < g {
      Pow3Grows(g' + 1, g);
    }
  }

  lemma GrownFound(lives: Lives, t: Shape, hash: nat, key: Bytes, vals: seq<Bytes>)
    requires vals != [] && Grown(lives, t, hash, key, vals, |vals|)
    ensures forall g: nat :: Reached(g) <= |vals| < Reached(g + 1) ==>
      ValueAt(lives, LastFor(CallsFor(lives, t, hash, key), ForKey(lives, key))) ==
        Some(Held(key, vals[RootAt(g)], vals[Reached(g)..]))
  {
    hide CallsFor;
    hide NthEntry;
    hide Lean;
    hide Held;
    hide Flat;
    var h: nat :| Column(lives, t, h, hash, key, vals, |vals|);
    RootCalled(lives, t, h, hash, key, vals, |vals|);
    LeanSize(t, h, 1);
    assert vals[Reached(h - 1)..|vals|] == vals[Reached(h - 1)..];
    forall g: nat | Reached(g) <= |vals| < Reached(g + 1) ensures g == h - 1 {
      SameLevels(|vals|, g, h - 1);
    }
  }

  // ---- values of one size ----

  predicate OneSize(key: Bytes, vals: seq<Bytes>) {
    forall i, j :: 0 <= i < |vals| && 0 <= j < |vals| ==> PagesOf(Item(key, vals[i])) == PagesOf(Item(key, vals[j]))
  }

  lemma {:induction false} PagesOfOneSize(key: Bytes, vals: seq<Bytes>, m: nat)
    requires forall i :: 0 <= i < |vals| ==> PagesOf(Item(key, vals[i])) == m
    ensures PagesOfAll(key, vals) == |vals| * m
  {
    hide PagesOf;
    if vals != [] {
      PagesOfOneSize(key, vals[..|vals| - 1], m);
      assert |vals| * m == (|vals| - 1) * m + m;
    }
  }

  /** Where every value fits over the others, an item holds the last one offered to it. */
  lemma {:induction false} HeldLast(key: Bytes, v: Bytes, later: seq<Bytes>)
    requires OneSize(key, [v] + later)
    ensures Held(key, v, later) == ([v] + later)[|later|]
  {
    hide PagesOf;
    var all := [v] + later;
    if later != [] {
      var last := |later| - 1;
      assert [v] + later[..last] == all[..|later|];
      HeldLast(key, v, later[..last]);
      assert PagesOf(Item(key, all[last])) == PagesOf(Item(key, all[|later|]));
    }
  }

  lemma {:induction false} LevelsFor(n: nat) returns (g: nat)
    requires n > 0
    ensures Reached(g) <= n < Reached(g + 1)
  {
    if n == 1 {
      g := 0;
    } else {
      g := LevelsFor(n - 1);
      if n == Reached(g + 1) {
        g := g + 1;
      }
    }
  }

  /** Values of one size: the new value is found, unless the last store split the root for another time. That is
      so exactly after 2 * 3^g - 1 stores with g > 0 (5, 17, 53, ...): then it is the value of store number
      3^g - 1, counted from 0, which no later store was offered to. */
  method StoreOneSize(safe_hash: Bytes -> nat, key: Bytes, vals: seq<Bytes>) returns (r: Option<Bytes>)
    requires safe_hash(key) != 0 && vals != [] && Room(key, vals) && OneSize(key, vals)
    ensures forall g: nat :: |vals| == Reached(g) ==> r == Some(vals[RootAt(g)])
    ensures (forall g: nat :: |vals| != Reached(g)) ==> r == Some(vals[|vals| - 1])
    ensures vals[|vals| - 1] !in vals[..|vals| - 1] ==>
      (r == Some(vals[|vals| - 1]) <==> forall g: nat :: g > 0 ==> |vals| != Reached(g))
  {
    hide Held;
    hide Room;
    r := StoreMany(safe_hash, key, vals);
    ghost var g := LevelsFor(|vals|);
    LastOrRoot(key, vals, g);
  }

  lemma LastOrRoot(key: Bytes, vals: seq<Bytes>, g: nat)
    requires Reached(g) <= |vals| < Reached(g + 1) && OneSize(key, vals)
    ensures Held(key, vals[RootAt(g)], vals[Reached(g)..]) ==
      vals[if |vals| == Reached(g) then RootAt(g) else |vals| - 1]
    ensures forall g': nat :: |vals| == Reached(g') ==> g' == g
    ensures g == 0 ==> Reached(g) == 1 && RootAt(g) == 0
  {
    hide PagesOf;
    HeldLast(key, vals[RootAt(g)], vals[Reached(g)..]);
    forall g': nat | |vals| == Reached(g') ensures g' == g {
      Pow3Positive(g');
      SameLevels(|vals|, g, g');
    }
  }

  /** Five values of one byte: the search returns the third. */
  method FiveStores() returns (r: Option<Bytes>)
    ensures r == Some([3])
  {
    var vals: seq<Bytes> := [[1], [2], [3], [4], [5]];
    assert Reached(1) == 5 && RootAt(1) == 2;
    PagesOfOneSize([1], vals, 1);
    PagesOfOneSize([1], vals[..4], 1);
    hide PagesOfAll;
    r := StoreOneSize(_ => 1, [1], vals);
  }
}
