/** The key/value layer over the index and the data files: search and store (smmr_database.c). */
module Databases {
  import opened Common
  import opened NodeKeys
  import opened Shapes
  import opened ShapeInsertion
  import opened HashVisits
  import opened TreeInstances
  import opened DataFiles

  const IPC_DATAFILE_MAX := 128
  /** data_offset is a 24-bit field. */
  const OFFSET_LIMIT := 0x100_0000

  /** The stored items of all files, by file and first page. */
  type Lives = seq<map<nat, Item>>

  /** How a store ends. With NoFreeRun neither of the two insertions found a file for the item. */
  datatype StoreResult = Stored(entry: NodeKey, offset: nat) | BadArguments | NoFreeRun | NotIndexed {
    /** The entry lost the upper bits of the offset. */
    predicate Truncated() {
      Stored? && offset >= OFFSET_LIMIT
    }
  }

  /** The index entry that store makes for an item of the file `field` at `offset`. */
  function EntryFor(hash: nat, field: nat, offset: nat): (r: NodeKey) {
    NodeKey(hash, field, offset % OFFSET_LIMIT)
  }

  function PageOf(offset: nat): (page: int) {
    (offset - HEADER_SIZE) / IPC_DATAFILE_ALIGNED
  }

  // ---- where an item goes ----

  /** The `k`-th file in the order of trial that starts at file `m`. */
  function FileAt(m: nat, k: nat): (f: nat)
    ensures f < IPC_DATAFILE_MAX
  {
    (m + k) % IPC_DATAFILE_MAX
  }

  /** The file that takes `n` more pages, when the trial that starts at file `m` has come to its `j`-th file
      and `used[f]` pages of file `f` are taken. */
  function FileFor(used: seq<nat>, m: nat, n: nat, j: nat): (r: Option<nat>)
    requires |used| == IPC_DATAFILE_MAX && j <= IPC_DATAFILE_MAX
    ensures r.Some? ==> r.value < IPC_DATAFILE_MAX && PagesLeft(used[r.value], n)
    decreases IPC_DATAFILE_MAX - j
  {
    if j == IPC_DATAFILE_MAX then None
    else if PagesLeft(used[FileAt(m, j)], n) then Some(FileAt(m, j))
    else FileFor(used, m, n, j + 1)
  }

  /** The trial from its `j`-th file on finds no pages before it comes to its `k`-th file. */
  ghost predicate IsFirst(used: seq<nat>, m: nat, n: nat, j: nat, k: nat)
    requires |used| == IPC_DATAFILE_MAX
  {
    j <= k < IPC_DATAFILE_MAX && forall i :: j <= i < k ==> !PagesLeft(used[FileAt(m, i)], n)
  }

  /** It is the first one that has the pages, and there is none only if no file has them. */
  lemma {:induction false} FileForFirst(used: seq<nat>, m: nat, n: nat, j: nat)
    requires |used| == IPC_DATAFILE_MAX && j <= IPC_DATAFILE_MAX
    ensures match FileFor(used, m, n, j)
      case None => forall k :: j <= k < IPC_DATAFILE_MAX ==> !PagesLeft(used[FileAt(m, k)], n)
      case Some(f) =>
        && PagesLeft(used[f], n)
        && exists k :: IsFirst(used, m, n, j, k) && f == FileAt(m, k)
    decreases IPC_DATAFILE_MAX - j
  {
    if j < IPC_DATAFILE_MAX && !PagesLeft(used[FileAt(m, j)], n) {
      FileForFirst(used, m, n, j + 1);
    }
  }

  /** The pages taken after `n` more went to their file. */
  function UsedAfter(used: seq<nat>, m: nat, n: nat): (u: seq<nat>)
    requires |used| == IPC_DATAFILE_MAX
    ensures |u| == IPC_DATAFILE_MAX
  {
    match FileFor(used, m, n, 0)
    case None => used
    case Some(f) => used[f := used[f] + n]
  }

  lemma RefusedKeeps(used: seq<nat>, m: nat, n: nat)
    requires |used| == IPC_DATAFILE_MAX && FileFor(used, m, n, 0) == None
    ensures UsedAfter(used, m, n) == used
  {
  }

  /** How a store of an item of `n` pages ends. */
  function ResultOf(used: seq<nat>, hash: nat, n: nat): (r: StoreResult)
    requires |used| == IPC_DATAFILE_MAX
    ensures !r.BadArguments?
  {
    match FileFor(used, hash % IPC_DATAFILE_MAX, n, 0)
    case None => NoFreeRun
    case Some(f) =>
      if hash == 0 then NotIndexed else Stored(EntryFor(hash, f, OffsetOf(1 + used[f])), OffsetOf(1 + used[f]))
  }

  /** The number of pages in front of an item whose offset just fits into the field. */
  const ADDRESSABLE := (OFFSET_LIMIT - HEADER_SIZE) / IPC_DATAFILE_ALIGNED

  /** What is left of an offset in an entry leads to its page exactly below the limit. */
  lemma CutOffset(p: nat)
    ensures OffsetOf(p) >= OFFSET_LIMIT <==> p >= ADDRESSABLE
    ensures PageOf(OffsetOf(p) % OFFSET_LIMIT) == p <==> p < ADDRESSABLE
  {
    if p < ADDRESSABLE {
      assert OffsetOf(p) % OFFSET_LIMIT == OffsetOf(p);
    }
  }

  /** When a store loses offset bits: if and only if too many pages of its file are taken; and exactly then
      its entry does not lead to the page of its item. */
  lemma TruncatedIff(used: seq<nat>, hash: nat, n: nat, f: nat)
    requires |used| == IPC_DATAFILE_MAX && FileFor(used, hash % IPC_DATAFILE_MAX, n, 0) == Some(f) && hash != 0
    ensures var r := ResultOf(used, hash, n);
      && r.Stored? && (r.Truncated() <==> 1 + used[f] >= ADDRESSABLE)
      && (PageOf(r.entry.data_offset) == 1 + used[f] <==> !r.Truncated())
  {
    CutOffset(1 + used[f]);
    hide FileFor;
    hide OffsetOf;
    hide PageOf;
  }

  /** The file and the offset found for an item of `n` pages, if any. */
  predicate Chosen(used: seq<nat>, hash: nat, n: nat, ok: bool, field: nat, offset: nat) {
    && |used| == IPC_DATAFILE_MAX
    && var f := FileFor(used, hash % IPC_DATAFILE_MAX, n, 0);
       if ok then f == Some(field) && offset == OffsetOf(1 + used[field]) else f == None
  }

  lemma PageOfOffset(p: nat)
    ensures PageOf(OffsetOf(p)) == p
  {
  }

  /** The entry `k` points to a stored item whose key has the entry's hash. */
  ghost predicate Points(lives: Lives, safe_hash: Bytes -> nat, k: NodeKey) {
    k.data_field < |lives| && PageOf(k.data_offset) >= 0 && OffsetOf(PageOf(k.data_offset)) == k.data_offset
    && PageOf(k.data_offset) in lives[k.data_field]
    && safe_hash(lives[k.data_field][PageOf(k.data_offset)].key) == k.keyhash
  }

  ghost function ItemOf(lives: Lives, k: NodeKey): (r: Item)
    requires k.data_field < |lives| && PageOf(k.data_offset) in lives[k.data_field]
  {
    lives[k.data_field][PageOf(k.data_offset)]
  }

  ghost predicate AllPoint(lives: Lives, safe_hash: Bytes -> nat, keys: set<NodeKey>) {
    forall k :: k in keys ==> Points(lives, safe_hash, k)
  }

  /** The values of all entries for `key`. */
  ghost function ValuesOf(lives: Lives, safe_hash: Bytes -> nat, keys: set<NodeKey>, key: Bytes): (r: set<Bytes>)
    requires AllPoint(lives, safe_hash, keys)
  {
    set k | k in keys && ItemOf(lives, k).key == key :: ItemOf(lives, k).val
  }

  /** One callback of the search, on the bytes of all files. */
  function Callback(datas: seq<Bytes>, key: Bytes, k: NodeKey): (r: Outcome) {
    if k.data_field >= |datas| then Bad else Lookup(datas[k.data_field], k.data_offset, key)
  }

  // ---- which entries are called back for ----

  /** The entry `k` points to an item of `key`. */
  ghost predicate Owns(lives: Lives, key: Bytes, k: NodeKey) {
    && k.data_field < |lives| && PageOf(k.data_offset) in lives[k.data_field]
    && ItemOf(lives, k).key == key
  }

  /** What stops a search for `key`. */
  ghost function ForKey(lives: Lives, key: Bytes): (stop: NodeKey -> bool) {
    k => Owns(lives, key, k)
  }

  /** The entries that a search for `key` calls back for. */
  ghost function CallsFor(lives: Lives, t: Shape, hash: nat, key: Bytes): (calls: seq<NodeKey>) {
    Visits(t, hash, ForKey(lives, key))
  }

  /** The last call that is for one of `own`. */
  ghost function LastFor(calls: seq<NodeKey>, own: NodeKey -> bool): (e: Option<NodeKey>)
    ensures e.Some? ==> e.value in calls && own(e.value)
  {
    if calls == [] then None
    else if own(calls[|calls| - 1]) then Some(calls[|calls| - 1])
    else LastFor(calls[..|calls| - 1], own)
  }

  /** The value of the item that an entry points to. */
  ghost function ValueAt(lives: Lives, e: Option<NodeKey>): (v: Option<Bytes>) {
    if e.Some? && e.value.data_field < |lives| && PageOf(e.value.data_offset) in lives[e.value.data_field]
    then Some(ItemOf(lives, e.value).val)
    else None
  }

  /** The callbacks of a search stop it exactly for the entries of `key`. */
  lemma CallsAre(datas: seq<Bytes>, lives: Lives, safe_hash: Bytes -> nat, keys: set<NodeKey>, key: Bytes, t: Shape,
                 stop: NodeKey -> bool)
    requires Faithful(datas, lives) && AllPoint(lives, safe_hash, keys)
    requires forall k :: k in Flat(t) ==> k in keys
    requires forall k :: stop(k) == !Callback(datas, key, k).Other?
    ensures Visits(t, safe_hash(key), stop) == CallsFor(lives, t, safe_hash(key), key)
  {
    hide Callback;
    forall k | k in Flat(t) ensures stop(k) == ForKey(lives, key)(k) {
      CallbackOf(datas, lives, safe_hash, key, k);
    }
    VisitsAgree(t, safe_hash(key), stop, ForKey(lives, key));
  }

  /** One more callback on the container that holds the value found. */
  lemma FoldStep(datas: seq<Bytes>, lives: Lives, safe_hash: Bytes -> nat, key: Bytes, calls: seq<NodeKey>, n: nat)
    requires Faithful(datas, lives) && n < |calls| && Points(lives, safe_hash, calls[n])
    ensures ValueAt(lives, LastFor(calls[..n + 1], ForKey(lives, key))) ==
      if Callback(datas, key, calls[n]).Hit? then Some(Callback(datas, key, calls[n]).val)
      else ValueAt(lives, LastFor(calls[..n], ForKey(lives, key)))
  {
    hide Callback;
    CallbackOf(datas, lives, safe_hash, key, calls[n]);
    assert calls[..n + 1][..n] == calls[..n];
  }

  /** What the callbacks of a search for `key` make of the entries, when the bytes hold the items. */
  ghost predicate Faithful(datas: seq<Bytes>, lives: Lives) {
    |datas| == |lives|
    && forall f, p :: 0 <= f < |lives| && p in lives[f] ==> ItemAt(datas[f], OffsetOf(p), lives[f][p])
  }

  lemma CallbackOf(datas: seq<Bytes>, lives: Lives, safe_hash: Bytes -> nat, key: Bytes, k: NodeKey)
    requires Faithful(datas, lives) && Points(lives, safe_hash, k)
    ensures Callback(datas, key, k) == if ItemOf(lives, k).key == key then Hit(ItemOf(lives, k).val) else Other
  {
    LookupItem(datas[k.data_field], k.data_offset, ItemOf(lives, k), key);
  }

  lemma EntryCalled(datas: seq<Bytes>, lives: Lives, safe_hash: Bytes -> nat, keys: set<NodeKey>, key: Bytes,
                    k: NodeKey)
    requires Faithful(datas, lives) && AllPoint(lives, safe_hash, keys) && k in keys
    ensures !Callback(datas, key, k).Bad?
    ensures Callback(datas, key, k).Hit? ==> Callback(datas, key, k).val in ValuesOf(lives, safe_hash, keys, key)
  {
    CallbackOf(datas, lives, safe_hash, key, k);
  }

  /** If no entry of the hash is a hit, the key has no value. */
  lemma NoneCalled(datas: seq<Bytes>, lives: Lives, safe_hash: Bytes -> nat, keys: set<NodeKey>, key: Bytes)
    requires Faithful(datas, lives) && AllPoint(lives, safe_hash, keys)
    requires forall k :: k in keys && k.keyhash == safe_hash(key) ==> Callback(datas, key, k).Other?
    ensures ValuesOf(lives, safe_hash, keys, key) == {}
  {
    hide Callback;
    forall k | k in keys ensures ItemOf(lives, k).key != key {
      CallbackOf(datas, lives, safe_hash, key, k);
    }
  }

  // ---- what a store does to the values ----

  /** The guard of the in-place overwrite: the new value needs no more pages than the item has. */
  predicate FitsOver(i: Item, val: Bytes) {
    PagesOf(i) >= PagesOf(Item(i.key, val))
  }

  /** The items whose entries are in `called` and whose key is `key` were overwritten where that fits. */
  ghost predicate Overwritten(l0: Lives, l1: Lives, hash: nat, key: Bytes, val: Bytes, called: set<NodeKey>) {
    |l1| == |l0|
    && (forall f :: 0 <= f < |l0| ==> l1[f].Keys == l0[f].Keys)
    && forall f, p :: 0 <= f < |l0| && p in l0[f] ==>
         l1[f][p] == if NodeKey(hash, f, OffsetOf(p)) in called && l0[f][p].key == key && FitsOver(l0[f][p], val)
                     then Item(key, val) else l0[f][p]
  }

  /** The same for one callback. */
  ghost predicate OneOverwritten(l0: Lives, l1: Lives, k: NodeKey, key: Bytes, val: Bytes)
    requires k.data_field < |l0| && PageOf(k.data_offset) in l0[k.data_field]
  {
    var f, p := k.data_field, PageOf(k.data_offset);
    |l1| == |l0|
    && (forall g :: 0 <= g < |l0| && g != f ==> l1[g] == l0[g])
    && l1[f].Keys == l0[f].Keys
    && (forall q :: q in l0[f] && q != p ==> l1[f][q] == l0[f][q])
    && l1[f][p] == if l0[f][p].key == key && FitsOver(l0[f][p], val) then Item(key, val) else l0[f][p]
  }

  lemma OverwrittenStep(l0: Lives, l1: Lives, l2: Lives, safe_hash: Bytes -> nat, key: Bytes, val: Bytes,
                        called: set<NodeKey>, k: NodeKey)
    requires Overwritten(l0, l1, safe_hash(key), key, val, called) && k !in called
    requires Points(l0, safe_hash, k) && OneOverwritten(l1, l2, k, key, val) && k.keyhash == safe_hash(key)
    ensures Overwritten(l0, l2, safe_hash(key), key, val, called + {k})
  {
    var f, p := k.data_field, PageOf(k.data_offset);
    assert k == NodeKey(safe_hash(key), f, OffsetOf(p));
    forall g, q | 0 <= g < |l0| && q in l0[g]
      ensures l2[g][q] ==
        if NodeKey(safe_hash(key), g, OffsetOf(q)) in called + {k} && l0[g][q].key == key && FitsOver(l0[g][q], val)
        then Item(key, val) else l0[g][q]
    {
      if g != f || q != p {
        assert NodeKey(safe_hash(key), g, OffsetOf(q)) != k by { PageOfOffset(q); PageOfOffset(p); }
      }
    }
  }

  lemma OverwrittenPoint(l0: Lives, l1: Lives, safe_hash: Bytes -> nat, key: Bytes, val: Bytes, called: set<NodeKey>,
                         keys: set<NodeKey>)
    requires Overwritten(l0, l1, safe_hash(key), key, val, called) && AllPoint(l0, safe_hash, keys)
    ensures AllPoint(l1, safe_hash, keys)
    ensures forall k :: k in keys ==> ItemOf(l1, k).key == ItemOf(l0, k).key
    ensures forall k :: k in keys ==>
      ItemOf(l1, k).val == ItemOf(l0, k).val || (ItemOf(l0, k).key == key && ItemOf(l1, k).val == val)
    ensures forall k :: k in keys && k in called && ItemOf(l0, k).key == key ==>
      ItemOf(l1, k).val == if FitsOver(ItemOf(l0, k), val) then val else ItemOf(l0, k).val
  {
    forall k | k in keys
      ensures Points(l1, safe_hash, k)
      ensures ItemOf(l1, k) ==
        if k in called && ItemOf(l0, k).key == key && FitsOver(ItemOf(l0, k), val) then Item(key, val)
        else ItemOf(l0, k)
    {
      var f, p := k.data_field, PageOf(k.data_offset);
      assert Points(l0, safe_hash, k) && p in l0[f];
      if ItemOf(l0, k).key == key {
        assert k == NodeKey(safe_hash(key), f, OffsetOf(p));
      }
    }
  }

  /** What became of the items that entries point to: those called back for are overwritten where that
      fits, and no other changes. */
  ghost predicate Renewed(l0: Lives, l2: Lives, safe_hash: Bytes -> nat, keys: set<NodeKey>, called: seq<NodeKey>,
                          key: Bytes, val: Bytes) {
    && AllPoint(l0, safe_hash, keys) && AllPoint(l2, safe_hash, keys)
    && forall k :: k in keys ==>
         ItemOf(l2, k) ==
           if k in called && ItemOf(l0, k).key == key && FitsOver(ItemOf(l0, k), val) then Item(key, val)
           else ItemOf(l0, k)
  }

  lemma OverwrittenRenewed(l0: Lives, l1: Lives, safe_hash: Bytes -> nat, key: Bytes, val: Bytes, called: seq<NodeKey>,
                           keys: set<NodeKey>)
    requires Overwritten(l0, l1, safe_hash(key), key, val, KeySet(called)) && AllPoint(l0, safe_hash, keys)
    ensures Renewed(l0, l1, safe_hash, keys, called, key, val)
  {
    hide FitsOver;
    OverwrittenPoint(l0, l1, safe_hash, key, val, KeySet(called), keys);
    forall k | k in keys
      ensures ItemOf(l1, k) ==
        if k in called && ItemOf(l0, k).key == key && FitsOver(ItemOf(l0, k), val) then Item(key, val)
        else ItemOf(l0, k)
    {
      var f, p := k.data_field, PageOf(k.data_offset);
      assert Points(l0, safe_hash, k) && p in l0[f];
      if ItemOf(l0, k).key == key {
        assert k == NodeKey(safe_hash(key), f, OffsetOf(p));
      }
    }
  }

  /** A new item in the file found for it, or none if there is no such file. */
  ghost predicate ItemPut(u0: seq<nat>, hash: nat, i: Item, l1: Lives, l2: Lives) {
    && |u0| == IPC_DATAFILE_MAX
    && var f := FileFor(u0, hash % IPC_DATAFILE_MAX, PagesOf(i), 0);
       if f.Some? then Put(l1, l2, f.value, 1 + u0[f.value], i) else l2 == l1
  }

  lemma RenewedPut(u0: seq<nat>, hash: nat, i: Item, l0: Lives, l1: Lives, l2: Lives, safe_hash: Bytes -> nat,
                   keys: set<NodeKey>, called: seq<NodeKey>, key: Bytes, val: Bytes)
    requires Renewed(l0, l1, safe_hash, keys, called, key, val) && ItemPut(u0, hash, i, l1, l2)
    ensures Renewed(l0, l2, safe_hash, keys, called, key, val)
  {
    hide FitsOver;
    hide FileFor;
    hide PagesOf;
    forall k | k in keys ensures Points(l2, safe_hash, k) && ItemOf(l2, k) == ItemOf(l1, k) {
      assert Points(l1, safe_hash, k);
    }
  }

  /** The tree of the hash after a store. */
  ghost predicate TreeDone(r: StoreResult, t0: Shape, t2: Shape) {
    if r.Stored? then Grew(t0, t2, r.entry) else t2 == t0
  }

  ghost function WithItem(live: map<nat, Item>, p: nat, i: Item): (r: map<nat, Item>) {
    live[p := i]
  }

  /** Item `i` went to file `n`, at page `p`. */
  ghost predicate Put(l0: Lives, l1: Lives, n: nat, p: nat, i: Item) {
    n < |l0| && p !in l0[n] && l1 == l0[n := WithItem(l0[n], p, i)]
  }

  /** One more item, with an entry of its own. */
  lemma EntryAdded(l1: Lives, l2: Lives, safe_hash: Bytes -> nat, keys: set<NodeKey>, f: nat, p: nat, i: Item,
                   e: NodeKey)
    requires AllPoint(l1, safe_hash, keys) && f < |l1| && p !in l1[f] && l2 == l1[f := WithItem(l1[f], p, i)]
    requires e == NodeKey(safe_hash(i.key), f, OffsetOf(p))
    ensures e !in keys && AllPoint(l2, safe_hash, keys + {e}) && ItemOf(l2, e) == i
    ensures forall k :: k in keys ==> ItemOf(l2, k) == ItemOf(l1, k)
  {
    PageOfOffset(p);
    assert Points(l2, safe_hash, e) && !Points(l1, safe_hash, e);
    forall k | k in keys ensures Points(l2, safe_hash, k) && ItemOf(l2, k) == ItemOf(l1, k) {
      assert Points(l1, safe_hash, k);
    }
  }

  /** What the store of `val` under `key` makes of the values that entries point to. */
  ghost predicate ValuesStored(l0: Lives, l2: Lives, safe_hash: Bytes -> nat, k0: set<NodeKey>, k2: set<NodeKey>,
                               key: Bytes, val: Bytes) {
    AllPoint(l0, safe_hash, k0) && AllPoint(l2, safe_hash, k2)
    && (forall other :: other != key ==> ValuesOf(l2, safe_hash, k2, other) == ValuesOf(l0, safe_hash, k0, other))
    && ValuesOf(l2, safe_hash, k2, key) <= ValuesOf(l0, safe_hash, k0, key) + {val}
    && (forall k :: k in k0 ==> k in k2 && ItemOf(l2, k).key == ItemOf(l0, k).key)
    && forall e :: SureEntry(l0, safe_hash, k0, key, e) ==>
         ItemOf(l2, e) == Item(key, if FitsOver(ItemOf(l0, e), val) then val else ItemOf(l0, e).val)
  }

  /** The entry for which a store certainly calls back: the only one of the key, or, in an index of one
      node, the least one. */
  ghost predicate SureEntry(lives: Lives, safe_hash: Bytes -> nat, keys: set<NodeKey>, key: Bytes, e: NodeKey)
    requires AllPoint(lives, safe_hash, keys)
  {
    || OnlyEntry(lives, safe_hash, keys, key, e)
    || (|keys| <= TREE_NODECOUNT && LeastEntry(lives, safe_hash, keys, key, e))
  }

  /** `e` is the one entry for `key`. */
  ghost predicate OnlyEntry(lives: Lives, safe_hash: Bytes -> nat, keys: set<NodeKey>, key: Bytes, e: NodeKey)
    requires AllPoint(lives, safe_hash, keys)
  {
    e in keys && ItemOf(lives, e).key == key && forall k :: k in keys && ItemOf(lives, k).key == key ==> k == e
  }

  /** `e` is the least entry for `key`. */
  ghost predicate LeastEntry(lives: Lives, safe_hash: Bytes -> nat, keys: set<NodeKey>, key: Bytes, e: NodeKey)
    requires AllPoint(lives, safe_hash, keys)
  {
    e in keys && ItemOf(lives, e).key == key && forall k :: k in keys && ItemOf(lives, k).key == key ==> !Less(k, e)
  }

  /** The value of the least entry for a key that has entries. */
  ghost predicate LeastFound(lives: Lives, safe_hash: Bytes -> nat, keys: set<NodeKey>, key: Bytes, r: Option<Bytes>)
    requires AllPoint(lives, safe_hash, keys)
  {
    forall e :: LeastEntry(lives, safe_hash, keys, key, e) ==> r == Some(ItemOf(lives, e).val)
  }

  /** Where a search ends at the least entry that stops it, that is the least entry for the key. */
  lemma LeastCalledLast(datas: seq<Bytes>, lives: Lives, safe_hash: Bytes -> nat, keys: set<NodeKey>, key: Bytes,
                        calls: seq<NodeKey>, e: NodeKey)
    requires Faithful(datas, lives) && AllPoint(lives, safe_hash, keys) && LeastEntry(lives, safe_hash, keys, key, e)
    requires forall k :: k in calls ==> k in keys
    requires forall k :: k in keys && k.keyhash == safe_hash(key) && !Callback(datas, key, k).Other? ==>
      calls != [] && !Callback(datas, key, calls[|calls| - 1]).Other? && !Less(k, calls[|calls| - 1])
    ensures calls != [] && calls[|calls| - 1] == e
  {
    CallbackOf(datas, lives, safe_hash, key, e);
    var last := calls[|calls| - 1];
    CallbackOf(datas, lives, safe_hash, key, last);
    CompareIsStrictOrder(last, e, e);
  }

  lemma LeastReturned(datas: seq<Bytes>, lives: Lives, safe_hash: Bytes -> nat, keys: set<NodeKey>, key: Bytes,
                      calls: seq<NodeKey>, r: Option<Bytes>)
    requires Faithful(datas, lives) && AllPoint(lives, safe_hash, keys)
    requires forall k :: k in calls ==> k in keys
    requires forall k :: k in keys && k.keyhash == safe_hash(key) && !Callback(datas, key, k).Other? ==>
      calls != [] && !Callback(datas, key, calls[|calls| - 1]).Other? && !Less(k, calls[|calls| - 1])
    requires calls != [] && Callback(datas, key, calls[|calls| - 1]).Hit? ==>
      r == Some(Callback(datas, key, calls[|calls| - 1]).val)
    ensures LeastFound(lives, safe_hash, keys, key, r)
  {
    hide Callback;
    forall e | LeastEntry(lives, safe_hash, keys, key, e) ensures r == Some(ItemOf(lives, e).val) {
      LeastCalledLast(datas, lives, safe_hash, keys, key, calls, e);
      CallbackOf(datas, lives, safe_hash, key, e);
    }
  }

  /** A search that is stopped only by entries for the key calls back for its only entry. */
  lemma OnlyEntryCalled(datas: seq<Bytes>, lives: Lives, safe_hash: Bytes -> nat, keys: set<NodeKey>, key: Bytes,
                        calls: seq<NodeKey>, e: NodeKey)
    requires Faithful(datas, lives) && AllPoint(lives, safe_hash, keys) && OnlyEntry(lives, safe_hash, keys, key, e)
    requires forall k :: k in calls ==> k in keys
    requires (forall k :: k in calls ==> Callback(datas, key, k).Other?) ==>
      forall k :: k in keys && k.keyhash == safe_hash(key) ==> k in calls
    ensures e in calls
  {
    CallbackOf(datas, lives, safe_hash, key, e);
    if !(forall k :: k in calls ==> Callback(datas, key, k).Other?) {
      var k :| k in calls && !Callback(datas, key, k).Other?;
      CallbackOf(datas, lives, safe_hash, key, k);
    }
  }

  lemma SureEntryCalled(datas: seq<Bytes>, lives: Lives, safe_hash: Bytes -> nat, keys: set<NodeKey>, key: Bytes,
                        calls: seq<NodeKey>, e: NodeKey)
    requires Faithful(datas, lives) && AllPoint(lives, safe_hash, keys) && SureEntry(lives, safe_hash, keys, key, e)
    requires forall k :: k in calls ==> k in keys
    requires (forall k :: k in calls ==> Callback(datas, key, k).Other?) ==>
      forall k :: k in keys && k.keyhash == safe_hash(key) ==> k in calls
    requires |keys| <= TREE_NODECOUNT ==>
      forall k :: k in keys && k.keyhash == safe_hash(key) && !Callback(datas, key, k).Other? ==>
        calls != [] && !Callback(datas, key, calls[|calls| - 1]).Other? && !Less(k, calls[|calls| - 1])
    ensures e in calls
  {
    hide Callback;
    hide LeastEntry;
    hide OnlyEntry;
    if OnlyEntry(lives, safe_hash, keys, key, e) {
      OnlyEntryCalled(datas, lives, safe_hash, keys, key, calls, e);
    } else {
      LeastCalledLast(datas, lives, safe_hash, keys, key, calls, e);
    }
  }

  /** The overwrites alone. */
  lemma UpdateEffect(l0: Lives, l1: Lives, safe_hash: Bytes -> nat, keys: set<NodeKey>, key: Bytes, val: Bytes,
                     called: set<NodeKey>)
    requires Overwritten(l0, l1, safe_hash(key), key, val, called) && AllPoint(l0, safe_hash, keys)
    requires forall e :: SureEntry(l0, safe_hash, keys, key, e) ==> e in called
    ensures AllPoint(l1, safe_hash, keys) && ValuesStored(l0, l1, safe_hash, keys, keys, key, val)
  {
    hide PagesOf;
    OverwrittenPoint(l0, l1, safe_hash, key, val, called, keys);
    forall other | other != key ensures ValuesOf(l1, safe_hash, keys, other) == ValuesOf(l0, safe_hash, keys, other) {
      SameValues(l0, l1, safe_hash, keys, other);
    }
    var v0, v1 := ValuesOf(l0, safe_hash, keys, key), ValuesOf(l1, safe_hash, keys, key);
    forall v | v in v1 ensures v in v0 + {val} {
      var k :| k in keys && ItemOf(l1, k).key == key && ItemOf(l1, k).val == v;
      assert ItemOf(l0, k).val in v0;
    }
  }

  lemma SameValues(l0: Lives, l1: Lives, safe_hash: Bytes -> nat, keys: set<NodeKey>, other: Bytes)
    requires AllPoint(l0, safe_hash, keys) && AllPoint(l1, safe_hash, keys)
    requires forall k :: k in keys ==> ItemOf(l1, k).key == ItemOf(l0, k).key
    requires forall k :: k in keys && ItemOf(l0, k).key == other ==> ItemOf(l1, k).val == ItemOf(l0, k).val
    ensures ValuesOf(l1, safe_hash, keys, other) == ValuesOf(l0, safe_hash, keys, other)
  {
    var v0, v1 := ValuesOf(l0, safe_hash, keys, other), ValuesOf(l1, safe_hash, keys, other);
    forall v ensures v in v0 <==> v in v1 {
      if v in v0 {
        var k :| k in keys && ItemOf(l0, k).key == other && ItemOf(l0, k).val == v;
        assert ItemOf(l1, k).val in v1;
      }
      if v in v1 {
        var k :| k in keys && ItemOf(l1, k).key == other && ItemOf(l1, k).val == v;
        assert ItemOf(l0, k).val in v0;
      }
    }
  }

  /** The values after one more item got an entry. */
  lemma ValuesWithEntry(l1: Lives, l2: Lives, safe_hash: Bytes -> nat, keys: set<NodeKey>, e: NodeKey, i: Item,
                        other: Bytes)
    requires AllPoint(l1, safe_hash, keys) && AllPoint(l2, safe_hash, keys + {e}) && ItemOf(l2, e) == i
    requires forall k :: k in keys ==> ItemOf(l2, k) == ItemOf(l1, k)
    ensures ValuesOf(l2, safe_hash, keys + {e}, other) ==
      ValuesOf(l1, safe_hash, keys, other) + if other == i.key then {i.val} else {}
  {
    var v1, v2 := ValuesOf(l1, safe_hash, keys, other), ValuesOf(l2, safe_hash, keys + {e}, other);
    forall v | v in v2 ensures v in v1 || (other == i.key && v == i.val) {
      var k :| k in keys + {e} && ItemOf(l2, k).key == other && ItemOf(l2, k).val == v;
      if k in keys { assert ItemOf(l1, k).val in v1; }
    }
    forall v | v in v1 ensures v in v2 {
      var k :| k in keys && ItemOf(l1, k).key == other && ItemOf(l1, k).val == v;
      assert ItemOf(l2, k).val in v2;
    }
    if other == i.key { assert ItemOf(l2, e).val in v2; }
  }

  /** Overwrites and a new entry together. */
  lemma StoreEffect(l0: Lives, l1: Lives, l2: Lives, safe_hash: Bytes -> nat, keys: set<NodeKey>, key: Bytes,
                    val: Bytes, e: NodeKey)
    requires AllPoint(l0, safe_hash, keys) && AllPoint(l1, safe_hash, keys) && AllPoint(l2, safe_hash, keys + {e})
    requires ValuesStored(l0, l1, safe_hash, keys, keys, key, val)
    requires ItemOf(l2, e) == Item(key, val) && forall k :: k in keys ==> ItemOf(l2, k) == ItemOf(l1, k)
    ensures ValuesStored(l0, l2, safe_hash, keys, keys + {e}, key, val)
    ensures val in ValuesOf(l2, safe_hash, keys + {e}, key)
  {
    forall other
      ensures ValuesOf(l2, safe_hash, keys + {e}, other) ==
        ValuesOf(l1, safe_hash, keys, other) + if other == key then {val} else {}
    {
      ValuesWithEntry(l1, l2, safe_hash, keys, e, Item(key, val), other);
    }
  }

  /** With its entry `e`, the new item adds `val` to the values of `key`. */
  ghost predicate EntryFits(l0: Lives, l2: Lives, safe_hash: Bytes -> nat, keys: set<NodeKey>, key: Bytes, val: Bytes,
                            e: NodeKey) {
    e !in keys && AllPoint(l2, safe_hash, keys + {e})
    && ValuesStored(l0, l2, safe_hash, keys, keys + {e}, key, val)
    && ItemOf(l2, e) == Item(key, val) && val in ValuesOf(l2, safe_hash, keys + {e}, key)
  }

  /** Overwrites and a new item, with and without its entry. */
  lemma ItemEffect(l0: Lives, l1: Lives, l2: Lives, safe_hash: Bytes -> nat, keys: set<NodeKey>, key: Bytes, val: Bytes,
                   f: nat, p: nat, e: NodeKey)
    requires AllPoint(l0, safe_hash, keys) && AllPoint(l1, safe_hash, keys)
    requires ValuesStored(l0, l1, safe_hash, keys, keys, key, val)
    requires f < |l1| && p !in l1[f] && l2 == l1[f := WithItem(l1[f], p, Item(key, val))]
    requires e == NodeKey(safe_hash(key), f, OffsetOf(p))
    ensures AllPoint(l2, safe_hash, keys) && ValuesStored(l0, l2, safe_hash, keys, keys, key, val)
    ensures EntryFits(l0, l2, safe_hash, keys, key, val, e)
  {
    EntryAdded(l1, l2, safe_hash, keys, f, p, Item(key, val), e);
    StoreEffect(l0, l1, l2, safe_hash, keys, key, val, e);
    forall other ensures ValuesOf(l2, safe_hash, keys, other) == ValuesOf(l1, safe_hash, keys, other) {
      SameValues(l1, l2, safe_hash, keys, other);
    }
  }

  /** What a store has done when it got past its argument checks, when `u0[f]` pages of file `f` were taken:
      how it ends follows from these alone, and the values of `key` and of no other key changed. Unless the
      entry was truncated, the new value is among those of `key`. */
  ghost predicate StoreDone(r: StoreResult, safe_hash: Bytes -> nat, l0: Lives, k0: set<NodeKey>, u0: seq<nat>,
                            l2: Lives, k2: set<NodeKey>, u2: seq<nat>, key: Bytes, val: Bytes) {
    var hash, n := safe_hash(key), PagesOf(Item(key, val));
    && |u0| == IPC_DATAFILE_MAX && r == ResultOf(u0, hash, n) && u2 == UsedAfter(u0, hash % IPC_DATAFILE_MAX, n)
    && k2 == k0 + (if r.Stored? then {r.entry} else {})
    && AllPoint(l2, safe_hash, k0) && ValuesStored(l0, l2, safe_hash, k0, k0, key, val)
    && (r.Stored? && !r.Truncated() ==> EntryFits(l0, l2, safe_hash, k0, key, val, r.entry))
  }

  /** The index after a store whose entry was not truncated. */
  lemma DoneWhole(r: StoreResult, safe_hash: Bytes -> nat, l0: Lives, k0: set<NodeKey>, u0: seq<nat>,
                  l2: Lives, k2: set<NodeKey>, u2: seq<nat>, key: Bytes, val: Bytes)
    requires StoreDone(r, safe_hash, l0, k0, u0, l2, k2, u2, key, val)
    requires !r.Truncated() || r.entry in k0
    ensures AllPoint(l2, safe_hash, k2) && ValuesStored(l0, l2, safe_hash, k0, k2, key, val)
  {
    hide AllPoint;
    hide ValuesStored;
    if !r.Stored? || r.Truncated() {
      assert k2 == k0;
    }
  }

  /** An item in the files, and the attempt to add its entry. */
  lemma PlacedDone(safe_hash: Bytes -> nat, l0: Lives, k0: set<NodeKey>, u0: seq<nat>, l2: Lives, key: Bytes,
                   val: Bytes)
    requires |u0| == IPC_DATAFILE_MAX && AllPoint(l2, safe_hash, k0)
    requires ValuesStored(l0, l2, safe_hash, k0, k0, key, val)
    requires var f := FileFor(u0, safe_hash(key) % IPC_DATAFILE_MAX, PagesOf(Item(key, val)), 0);
      f.Some? ==>
        EntryFits(l0, l2, safe_hash, k0, key, val, NodeKey(safe_hash(key), f.value, OffsetOf(1 + u0[f.value])))
    ensures var r := ResultOf(u0, safe_hash(key), PagesOf(Item(key, val)));
      var k2 := k0 + if r.Stored? then {r.entry} else {};
      && StoreDone(r, safe_hash, l0, k0, u0, l2, k2,
           UsedAfter(u0, safe_hash(key) % IPC_DATAFILE_MAX, PagesOf(Item(key, val))), key, val)
      && (!r.Truncated() || r.entry in k0 ==> AllPoint(l2, safe_hash, k2))
  {
    hide AllPoint;
    hide PagesOf;
    hide ValuesStored;
    hide EntryFits;
    hide FileFor;
    hide OffsetOf;
    var r := ResultOf(u0, safe_hash(key), PagesOf(Item(key, val)));
    if !r.Truncated() || r.entry in k0 {
      DoneWhole(r, safe_hash, l0, k0, u0, l2, k0 + (if r.Stored? then {r.entry} else {}),
        UsedAfter(u0, safe_hash(key) % IPC_DATAFILE_MAX, PagesOf(Item(key, val))), key, val);
    }
  }

  /** The files as init_datafiles_from_file leaves them when they are new. */
  method NewFiles() returns (fs: seq<DataFile>)
    ensures |fs| == IPC_DATAFILE_MAX
    ensures forall i :: 0 <= i < |fs| ==> fresh(fs[i]) && fresh(fs[i].bitmap) && fresh(fs[i].data)
    ensures forall i, j :: 0 <= i < j < |fs| ==>
      fs[i] != fs[j] && fs[i].bitmap != fs[j].bitmap && fs[i].data != fs[j].data
    ensures forall i :: 0 <= i < |fs| ==> fs[i].Valid() && fs[i].HasPacked(0)
  {
    hide DataFile.Valid;
    hide DataFile.HasPacked;
    fs := [];
    while |fs| < IPC_DATAFILE_MAX
      invariant |fs| <= IPC_DATAFILE_MAX
      invariant forall i :: 0 <= i < |fs| ==> fresh(fs[i]) && fresh(fs[i].bitmap) && fresh(fs[i].data)
      invariant forall i, j :: 0 <= i < j < |fs| ==>
        fs[i] != fs[j] && fs[i].bitmap != fs[j].bitmap && fs[i].data != fs[j].data
      invariant forall i :: 0 <= i < |fs| ==> fs[i].Valid() && fs[i].HasPacked(0)
    {
      var f := new DataFile();
      fs := fs + [f];
    }
  }

  class Database {
    const inst: TreeInstance
    const files: seq<DataFile>
    const safe_hash: Bytes -> nat
    /** The pages taken in each file. */
    ghost var used: seq<nat>

    ghost function Repr(): (r: set<object>) {
      {inst} + (set i | 0 <= i < |inst.trees| :: inst.trees[i] as object) + FileObjects()
    }

    ghost function FileObjects(): (r: set<object>) {
      (set i | 0 <= i < |files| :: files[i] as object)
      + (set i | 0 <= i < |files| :: files[i].bitmap as object)
      + (set i | 0 <= i < |files| :: files[i].data as object)
    }

    ghost predicate FilesOk()
      reads FileObjects()
    {
      |files| == IPC_DATAFILE_MAX
      && (forall i, j :: 0 <= i < j < |files| ==>
          files[i] != files[j] && files[i].bitmap != files[j].bitmap && files[i].data != files[j].data)
      && forall i :: 0 <= i < |files| ==> files[i].Valid()
    }

    ghost function AllLives(): (r: Lives)
      reads FileObjects()
    {
      seq(|files|, i requires 0 <= i < |files| reads FileObjects() => files[i].live)
    }

    ghost predicate Valid()
      reads this, Repr()
    {
      inst.Valid() && FilesOk() && AllPacked(used) && AllPoint(AllLives(), safe_hash, inst.keys)
    }

    ghost predicate AllPacked(u: seq<nat>)
      reads FileObjects()
    {
      |u| == |files| && forall i :: 0 <= i < |files| ==> files[i].HasPacked(u[i])
    }

    /** The values that the entries for `key` point to; a key stored once has exactly one. */
    ghost function Values(key: Bytes): (r: set<Bytes>)
      requires Valid()
      reads this, Repr()
    {
      ValuesOf(AllLives(), safe_hash, inst.keys, key)
    }

    /** The bytes of all files, as the callbacks see them. */
    method Snapshot() returns (datas: seq<Bytes>)
      requires FilesOk()
      ensures Faithful(datas, AllLives())
    {
      datas := seq(|files|, i requires 0 <= i < |files| reads FileObjects() => files[i].data[..]);
      forall f, p | 0 <= f < |files| && p in AllLives()[f] ensures ItemAt(datas[f], OffsetOf(p), AllLives()[f][p]) {
        assert FileOk(files[f].bitmap[..], files[f].data[..], files[f].live);
      }
    }

    /** The bytes of all files, and the entries that a search for `key` over these calls back for. */
    method CallEntries(key: Bytes) returns (datas: seq<Bytes>, calls: seq<NodeKey>)
      requires Valid()
      ensures Faithful(datas, AllLives())
      ensures calls == CallsFor(AllLives(), inst.TreeOf(safe_hash(key)), safe_hash(key), key)
      ensures forall i, j :: 0 <= i < j < |calls| ==> calls[i] != calls[j]
      ensures forall k :: k in calls ==> k in inst.keys && k.keyhash == safe_hash(key)
      ensures (forall k :: k in calls ==> Callback(datas, key, k).Other?) ==>
        forall k :: k in inst.keys && k.keyhash == safe_hash(key) ==> k in calls
      ensures |inst.keys| <= TREE_NODECOUNT ==>
        forall k :: k in inst.keys && k.keyhash == safe_hash(key) && !Callback(datas, key, k).Other? ==>
          calls != [] && !Callback(datas, key, calls[|calls| - 1]).Other? && !Less(k, calls[|calls| - 1])
    {
      hide TreeInstance.Valid;
      hide DataFile.Valid;
      hide DataFile.HasPacked;
      hide Callback;
      hide CallsFor;
      hide Visits;
      hide Points;
      hide AllPoint;
      ghost var lives := AllLives();
      datas := Snapshot();
      var stop := k => !Callback(datas, key, k).Other?;
      calls := inst.SearchHash(safe_hash(key), stop);
      inst.TreeKeys(safe_hash(key));
      assert AllLives() == lives;
      CallsAre(datas, lives, safe_hash, inst.keys, key, inst.TreeOf(safe_hash(key)), stop);
    }

    /** search: the value that the last matching callback left in the container, if any did. */
    method Search(key: Bytes) returns (r: Option<Bytes>)
      requires Valid()
      ensures r.None? <==> Values(key) == {}
      ensures r.Some? ==> r.value in Values(key)
      ensures r == ValueAt(AllLives(),
        LastFor(CallsFor(AllLives(), inst.TreeOf(safe_hash(key)), safe_hash(key), key), ForKey(AllLives(), key)))
      ensures |inst.keys| <= TREE_NODECOUNT ==> LeastFound(AllLives(), safe_hash, inst.keys, key, r)
    {
      hide TreeInstance.Valid;
      hide DataFile.Valid;
      hide Callback;
      hide Visits;
      hide ValuesOf;
      hide AllPoint;
      hide LeastFound;
      hide DataFile.HasPacked;
      ghost var lives, keys, t := AllLives(), inst.keys, inst.TreeOf(safe_hash(key));
      hide CallsFor;
      hide LastFor;
      hide ValueAt;
      hide ForKey;
      hide Faithful;
      var datas, calls := CallEntries(key);
      assert AllLives() == lives && inst.TreeOf(safe_hash(key)) == t;
      r := Fold(datas, key, calls, keys, lives);
      assert AllLives() == lives && inst.TreeOf(safe_hash(key)) == t;
      assert Values(key) == ValuesOf(lives, safe_hash, keys, key);
      if |keys| <= TREE_NODECOUNT {
        LeastReturned(datas, lives, safe_hash, keys, key, calls, r);
      }
    }

    /** The callbacks of a search, one after the other, on the container they share. */
    method Fold(datas: seq<Bytes>, key: Bytes, calls: seq<NodeKey>, ghost keys: set<NodeKey>, ghost lives: Lives)
      returns (r: Option<Bytes>)
      requires Faithful(datas, lives) && AllPoint(lives, safe_hash, keys)
      requires forall k :: k in calls ==> k in keys
      requires (forall k :: k in calls ==> Callback(datas, key, k).Other?) ==>
        forall k :: k in keys && k.keyhash == safe_hash(key) ==> k in calls
      ensures r.None? <==> ValuesOf(lives, safe_hash, keys, key) == {}
      ensures r.Some? ==> r.value in ValuesOf(lives, safe_hash, keys, key)
      ensures r == ValueAt(lives, LastFor(calls, ForKey(lives, key)))
      ensures calls != [] && Callback(datas, key, calls[|calls| - 1]).Hit? ==>
        r == Some(Callback(datas, key, calls[|calls| - 1]).val)
    {
      hide Callback;
      hide Points;
      hide ValuesOf;
      assert ValueAt(lives, LastFor([], ForKey(lives, key))) == None;
      hide LastFor;
      hide ValueAt;
      hide ForKey;
      r := None;
      for n := 0 to |calls|
        invariant r.Some? ==> r.value in ValuesOf(lives, safe_hash, keys, key)
        invariant n > 0 && Callback(datas, key, calls[n - 1]).Hit? ==> r == Some(Callback(datas, key, calls[n - 1]).val)
        invariant r.None? ==> forall k :: k in calls[..n] ==> Callback(datas, key, k).Other?
        invariant r == ValueAt(lives, LastFor(calls[..n], ForKey(lives, key)))
      {
        FoldStep(datas, lives, safe_hash, key, calls, n);
        EntryCalled(datas, lives, safe_hash, keys, key, calls[n]);
        assert calls[..n + 1] == calls[..n] + [calls[n]];
        match Callback(datas, key, calls[n])
        case Hit(val) => r := Some(val);
        case Other =>
        case Bad => r := None;
      }
      assert calls[..|calls|] == calls;
      if r.None? {
        NoneCalled(datas, lives, safe_hash, keys, key);
      }
    }

    /** One callback of a store: the item that `k` points to is overwritten if it has the key and enough pages. */
    method UpdateOne(k: NodeKey, key: Bytes, val: Bytes) returns (out: Outcome)
      requires FilesOk() && AllPacked(used) && Points(AllLives(), safe_hash, k) && Storable(Item(key, val))
      modifies FileObjects()
      ensures FilesOk() && OneOverwritten(old(AllLives()), AllLives(), k, key, val)
      ensures out == if ItemOf(old(AllLives()), k).key == key then Hit(ItemOf(old(AllLives()), k).val) else Other
      ensures AllPacked(used)
    {
      hide FileOk;
      hide DataFile.HasPacked;
      hide Lookup;
      hide PagesOf;
      ghost var lives, p := AllLives(), PageOf(k.data_offset);
      var f := files[k.data_field];
      PlacedItem(f, p, key);
      out := Lookup(f.data[..], k.data_offset, key);
      if out.Hit? {
        var fits := f.OverwriteInPlace(p, k.data_offset, val);
        assert AllLives() == lives[k.data_field := f.live];
      } else {
        assert AllLives() == lives;
      }
    }

    /** All callbacks of a store. Their results do not depend on the values written by earlier ones. */
    method UpdatePass(calls: seq<NodeKey>, key: Bytes, val: Bytes, ghost datas: seq<Bytes>, ghost keys: set<NodeKey>)
      requires FilesOk() && AllPacked(used) && AllPoint(AllLives(), safe_hash, keys) && Storable(Item(key, val))
      requires Faithful(datas, AllLives())
      requires forall i, j :: 0 <= i < j < |calls| ==> calls[i] != calls[j]
      requires forall k :: k in calls ==> k in keys && k.keyhash == safe_hash(key)
      modifies FileObjects()
      ensures FilesOk() && Overwritten(old(AllLives()), AllLives(), safe_hash(key), key, val, KeySet(calls))
      ensures AllPacked(used)
    {
      hide DataFile.Valid;
      hide DataFile.HasPacked;
      hide Lookup;
      hide OneOverwritten;
      ghost var lives0 := AllLives();
      var n := 0;
      while n < |calls|
        invariant 0 <= n <= |calls| && FilesOk()
        invariant Overwritten(lives0, AllLives(), safe_hash(key), key, val, KeySet(calls[..n]))
        invariant AllPacked(used)
      {
        ghost var k, l1 := calls[n], AllLives();
        OverwrittenPoint(lives0, l1, safe_hash, key, val, KeySet(calls[..n]), keys);
        CallbackOf(datas, lives0, safe_hash, key, k);
        var out := UpdateOne(calls[n], key, val);
        assert out.Other? <==> Callback(datas, key, k).Other?;
        OverwrittenStep(lives0, l1, AllLives(), safe_hash, key, val, KeySet(calls[..n]), k);
        CalledSet(calls, n);
        n := n + 1;
      }
      assert calls[..n] == calls;
    }

    /** The attempt to insert into one file: it succeeds exactly while enough pages are left, and the item
        goes right behind those in use. */
    method InsertIn(n: nat, i: Item) returns (offset: nat)
      requires FilesOk() && AllPacked(used) && n < |files| && Storable(i)
      modifies files[n], files[n].bitmap, files[n].data
      ensures FilesOk()
      ensures offset == if PagesLeft(used[n], PagesOf(i)) then OffsetOf(1 + used[n]) else 0
      ensures offset == 0 ==> AllLives() == old(AllLives()) && AllPacked(used)
      ensures offset != 0 ==> Put(old(AllLives()), AllLives(), n, 1 + used[n], i)
      ensures offset != 0 ==> AllPacked(used[n := used[n] + PagesOf(i)])
    {
      hide DataFile.Valid;
      ghost var lives, f := AllLives(), files[n];
      ghost var bits, remain := f.bitmap[..], f.remain_length;
      PackedFirstFit(bits, remain, used[n], PagesOf(i));
      offset := files[n].InsertAtFreePage(i);
      hide FirstFit;
      assert AllLives() == lives[n := f.live];
      if offset == 0 {
        PackedKept(bits, remain, f.remain_length, used[n]);
      } else {
        PackedMore(bits, f.bitmap[..], remain, used[n], PagesOf(i));
      }
    }

    /** insert_to_datafile_at_freepage: the files are tried in turn, from the one the hash selects. */
    method InsertAtFreePage(i: Item) returns (ok: bool, field: nat, offset: nat)
      requires FilesOk() && AllPacked(used) && |used| == IPC_DATAFILE_MAX && Storable(i)
      modifies FileObjects()
      ensures FilesOk() && AllPacked(UsedAfter(old(used), safe_hash(i.key) % IPC_DATAFILE_MAX, PagesOf(i)))
      ensures Chosen(old(used), safe_hash(i.key), PagesOf(i), ok, field, offset)
      ensures !ok ==> AllLives() == old(AllLives())
      ensures ok ==> Put(old(AllLives()), AllLives(), field, 1 + old(used)[field], i)
      ensures used == old(used)
    {
      hide DataFile.Valid;
      hide DataFile.HasPacked;
      hide Put;
      hide AllPacked;
      hide AllLives;
      hide PagesOf;
      hide PagesLeft;
      FilesCounted(used);
      var m := safe_hash(i.key) % IPC_DATAFILE_MAX;
      var distid := Distribution(m);
      ok, field, offset := false, 0, 0;
      ghost var lives, u := AllLives(), used;
      var n := 0;
      while n < IPC_DATAFILE_MAX
        invariant 0 <= n <= IPC_DATAFILE_MAX && FilesOk() && AllLives() == lives && AllPacked(u) && used == u
        invariant FileFor(used, m, PagesOf(i), 0) == FileFor(used, m, PagesOf(i), n)
      {
        offset := InsertIn(distid[n], i);
        if offset != 0 {
          ok, field := true, distid[n];
          assert UsedAfter(u, m, PagesOf(i)) == u[field := u[field] + PagesOf(i)];
          return;
        }
        n := n + 1;
      }
    }

    /** insert_to_datafile, the append fallback, where it is called: after insert_to_datafile_at_freepage found no
        file. The one check it makes then fails for every file, too. */
    method InsertAtEnd(i: Item) returns (ok: bool)
      requires FilesOk() && AllPacked(used) && |used| == IPC_DATAFILE_MAX && Storable(i)
      requires FileFor(used, safe_hash(i.key) % IPC_DATAFILE_MAX, PagesOf(i), 0) == None
      ensures !ok
    {
      hide DataFile.Valid;
      FilesCounted(used);
      var m := safe_hash(i.key) % IPC_DATAFILE_MAX;
      var distid := Distribution(m);
      FileForFirst(used, m, PagesOf(i), 0);
      ok := false;
      for n := 0 to IPC_DATAFILE_MAX
        invariant !ok
      {
        var f := files[distid[n]];
        PackedFirstFit(f.bitmap[..], f.remain_length, used[distid[n]], PagesOf(i));
        if f.remain_length > AlignedSize(ItemLength(i)) {
          assert false;
        }
      }
    }

    lemma FilesCounted(u: seq<nat>)
      requires FilesOk() && AllPacked(u)
      ensures |u| == |files| == IPC_DATAFILE_MAX
    {
    }

    /** store: overwrite what the callbacks find, and then, since the callbacks always leave the
        container's flag at "not found", insert a new item and a new entry in any case. */
    method Store(key: Bytes, val: Bytes) returns (r: StoreResult)
      requires Valid() && (key != [] && val != [] ==> Storable(Item(key, val)))
      modifies this`used, Repr()
      ensures r.BadArguments? <==> key == [] || val == []
      ensures r.BadArguments? ==> AllLives() == old(AllLives()) && inst.keys == old(inst.keys) && used == old(used)
      ensures !r.BadArguments? ==>
        StoreDone(r, safe_hash, old(AllLives()), old(inst.keys), old(used), AllLives(), inst.keys, used, key, val)
      ensures !r.BadArguments? ==>
        && Renewed(old(AllLives()), AllLives(), safe_hash, old(inst.keys),
             CallsFor(old(AllLives()), old(inst.TreeOf(safe_hash(key))), safe_hash(key), key), key, val)
        && TreeDone(r, old(inst.TreeOf(safe_hash(key))), inst.TreeOf(safe_hash(key)))
      ensures !r.Truncated() || r.entry in old(inst.keys) ==> Valid()
    {
      hide TreeInstance.Valid;
      hide FilesOk;
      hide AllPoint;
      hide ValuesStored;
      hide StoreDone;
      hide Renewed;
      hide ItemPut;
      hide CallsFor;
      if key == [] || val == [] {
        return BadArguments;
      }
      ghost var l0, u0, keys := AllLives(), used, inst.keys;
      ghost var called := CallsFor(l0, inst.TreeOf(safe_hash(key)), safe_hash(key), key);
      UpdateEntries(key, val);
      ghost var l1 := AllLives();
      OverwrittenRenewed(l0, l1, safe_hash, key, val, called, keys);
      r := InsertNew(key, val, l0);
      RenewedPut(u0, safe_hash(key), Item(key, val), l0, l1, AllLives(), safe_hash, keys, called, key, val);
    }

    /** The first half of every store: the callbacks for all entries of the hash. */
    method UpdateEntries(key: Bytes, val: Bytes)
      requires Valid() && Storable(Item(key, val))
      modifies FileObjects()
      ensures Valid() && ValuesStored(old(AllLives()), AllLives(), safe_hash, inst.keys, inst.keys, key, val)
      ensures Overwritten(old(AllLives()), AllLives(), safe_hash(key), key, val,
        KeySet(CallsFor(old(AllLives()), inst.TreeOf(safe_hash(key)), safe_hash(key), key)))
    {
      hide TreeInstance.Valid;
      hide DataFile.Valid;
      hide DataFile.HasPacked;
      hide Callback;
      hide Points;
      hide Visits;
      hide ValuesOf;
      hide ValuesStored;
      hide Overwritten;
      hide CallsFor;
      hide ForKey;
      hide Faithful;
      ghost var l0, keys := AllLives(), inst.keys;
      var datas, calls := CallEntries(key);
      UpdatePass(calls, key, val, datas, keys);
      forall e | SureEntry(l0, safe_hash, keys, key, e) ensures e in KeySet(calls) {
        SureEntryCalled(datas, l0, safe_hash, keys, key, calls, e);
      }
      UpdateEffect(l0, AllLives(), safe_hash, keys, key, val, KeySet(calls));
    }

    /** The item's place in the files, and what its entry would add. */
    method PlaceItem(key: Bytes, val: Bytes, ghost l0: Lives) returns (ok: bool, field: nat, offset: nat)
      requires FilesOk() && AllPacked(used) && |used| == IPC_DATAFILE_MAX && AllPoint(AllLives(), safe_hash, inst.keys)
      requires Storable(Item(key, val)) && AllPoint(l0, safe_hash, inst.keys)
      requires ValuesStored(l0, AllLives(), safe_hash, inst.keys, inst.keys, key, val)
      modifies FileObjects()
      ensures FilesOk() && AllPoint(AllLives(), safe_hash, inst.keys)
      ensures AllPacked(UsedAfter(old(used), safe_hash(key) % IPC_DATAFILE_MAX, PagesOf(Item(key, val))))
      ensures ValuesStored(l0, AllLives(), safe_hash, inst.keys, inst.keys, key, val)
      ensures Chosen(old(used), safe_hash(key), PagesOf(Item(key, val)), ok, field, offset)
      ensures ok ==> EntryFits(l0, AllLives(), safe_hash, inst.keys, key, val, NodeKey(safe_hash(key), field, offset))
      ensures ItemPut(old(used), safe_hash(key), Item(key, val), old(AllLives()), AllLives())
      ensures used == old(used)
    {
      hide DataFile.Valid;
      hide DataFile.HasPacked;
      hide AllPoint;
      hide ValuesStored;
      hide EntryFits;
      hide ValuesOf;
      hide AllPacked;
      hide FileFor;
      hide UsedAfter;
      hide PagesOf;
      ghost var l1, keys := AllLives(), inst.keys;
      ok, field, offset := InsertAtFreePage(Item(key, val));
      if !ok {
        RefusedKeeps(used, safe_hash(key) % IPC_DATAFILE_MAX, PagesOf(Item(key, val)));
        ok := InsertAtEnd(Item(key, val));
      } else {
        ItemEffect(l0, l1, AllLives(), safe_hash, keys, key, val, field, 1 + used[field],
          NodeKey(safe_hash(key), field, offset));
      }
    }

    /** add_tree_safe touches no file. */
    method Index(e: NodeKey) returns (ok: bool)
      requires inst.Valid() && FilesOk() && AllPacked(used)
      modifies inst, inst.trees
      ensures inst.Valid() && FilesOk() && AllLives() == old(AllLives()) && AllPacked(used)
      ensures ok <==> e.keyhash != 0
      ensures inst.keys == if ok then old(inst.keys) + {e} else old(inst.keys)
      ensures ok ==> Grew(old(inst.TreeOf(e.keyhash)), inst.TreeOf(e.keyhash), e)
    {
      hide TreeInstance.Valid;
      hide DataFile.Valid;
      hide DataFile.HasPacked;
      ok := inst.Add(e);
    }

    /** The insertion that ends every store. */
    method InsertNew(key: Bytes, val: Bytes, ghost l0: Lives) returns (r: StoreResult)
      requires Valid() && Storable(Item(key, val)) && AllPoint(l0, safe_hash, inst.keys)
      requires ValuesStored(l0, AllLives(), safe_hash, inst.keys, inst.keys, key, val)
      modifies this`used, Repr()
      ensures !r.BadArguments?
      ensures StoreDone(r, safe_hash, l0, old(inst.keys), old(used), AllLives(), inst.keys, used, key, val)
      ensures ItemPut(old(used), safe_hash(key), Item(key, val), old(AllLives()), AllLives())
      ensures TreeDone(r, old(inst.TreeOf(safe_hash(key))), inst.TreeOf(safe_hash(key)))
      ensures !r.Truncated() || r.entry in old(inst.keys) ==> Valid()
    {
      hide TreeInstance.Valid;
      hide DataFile.Valid;
      hide DataFile.HasPacked;
      hide AllPoint;
      hide ValuesStored;
      hide ValuesOf;
      hide EntryFits;
      hide PagesOf;
      hide StoreDone;
      hide AllPacked;
      hide FileFor;
      hide UsedAfter;
      hide OffsetOf;
      hide ItemPut;
      hide Grew;
      FilesCounted(used);
      ghost var keys, u0 := inst.keys, used;
      var ok, field, offset := PlaceItem(key, val, l0);
      ghost var l2 := AllLives();
      PlacedDone(safe_hash, l0, keys, u0, l2, key, val);
      used := UsedAfter(used, safe_hash(key) % IPC_DATAFILE_MAX, PagesOf(Item(key, val)));
      assert keys + {} == keys;
      if !ok {
        return NoFreeRun;
      }
      var e := EntryFor(safe_hash(key), field, offset);
      var indexed := Index(e);
      r := if indexed then Stored(e, offset) else NotIndexed;
    }

    constructor (safe_hash: Bytes -> nat)
      ensures Valid() && inst.keys == {} && this.safe_hash == safe_hash
      ensures fresh(Repr())
      ensures used == seq(IPC_DATAFILE_MAX, _ => 0) && forall h :: inst.TreeOf(h) == Nil
    {
      hide TreeInstance.Valid;
      hide DataFile.Valid;
      hide DataFile.HasPacked;
      hide Points;
      hide TreeInstance.TreeOf;
      this.safe_hash := safe_hash;
      inst := new TreeInstance();
      var fs := NewFiles();
      files := fs;
      used := seq(IPC_DATAFILE_MAX, _ => 0);
    }
  }

  lemma CalledSet(calls: seq<NodeKey>, n: nat)
    requires n < |calls|
    ensures KeySet(calls[..n + 1]) == KeySet(calls[..n]) + {calls[n]}
    ensures (forall i, j :: 0 <= i < j < |calls| ==> calls[i] != calls[j]) ==> calls[n] !in calls[..n]
  {
    assert calls[..n + 1] == calls[..n] + [calls[n]];
  }

  /** The order in which the files are tried: all of them, beginning with `m`. */
  method Distribution(m: nat) returns (distid: seq<nat>)
    requires m < IPC_DATAFILE_MAX
    ensures |distid| == IPC_DATAFILE_MAX && distid[0] == m
    ensures forall n :: 0 <= n < |distid| ==> distid[n] == FileAt(m, n)
    ensures forall n :: 0 <= n < |distid| ==> distid[n] == if m + n < 128 then m + n else m + n - 128
    ensures forall f :: 0 <= f < IPC_DATAFILE_MAX ==> f in distid
  {
    var next := m;
    distid := [];
    while |distid| < IPC_DATAFILE_MAX
      invariant |distid| <= IPC_DATAFILE_MAX && next == (m + |distid|) % IPC_DATAFILE_MAX
      invariant forall n :: 0 <= n < |distid| ==> distid[n] == (m + n) % IPC_DATAFILE_MAX
    {
      distid := distid + [next];
      next := if next + 1 >= IPC_DATAFILE_MAX then 0 else next + 1;
    }
    forall f | 0 <= f < IPC_DATAFILE_MAX ensures f in distid {
      var n := if f >= m then f - m else f + IPC_DATAFILE_MAX - m;
      assert distid[n] == f;
    }
  }

  lemma PlacedItem(f: DataFile, p: nat, key: Bytes)
    requires f.Valid() && p in f.live
    ensures ItemAt(f.data[..], OffsetOf(p), f.live[p])
    ensures Lookup(f.data[..], OffsetOf(p), key) == if f.live[p].key == key then Hit(f.live[p].val) else Other
  {
    assert Placed(f.bitmap[..], f.data[..], p, f.live[p]);
    LookupItem(f.data[..], OffsetOf(p), f.live[p], key);
  }

  // ---- whole histories ----

  /** The values that the first `n` stores of a history put under `key`. */
  ghost function StoredUnder(history: seq<Item>, n: nat, key: Bytes): (r: set<Bytes>)
    requires n <= |history|
  {
    set i | 0 <= i < n && history[i].key == key :: history[i].val
  }

  ghost predicate StoredKey(history: seq<Item>, results: seq<StoreResult>, key: Bytes)
    requires |results| <= |history|
  {
    exists i :: 0 <= i < |results| && history[i].key == key && results[i].Stored?
  }

  /** The index holds values for exactly the keys that were stored, and no value that was not stored under its key. */
  ghost predicate Reflects(lives: Lives, safe_hash: Bytes -> nat, keys: set<NodeKey>, history: seq<Item>,
                           results: seq<StoreResult>)
    requires |results| <= |history|
  {
    AllPoint(lives, safe_hash, keys) && forall key ::
      ValuesOf(lives, safe_hash, keys, key) <= StoredUnder(history, |results|, key)
      && (ValuesOf(lives, safe_hash, keys, key) != {} <==> StoredKey(history, results, key))
  }

  lemma ReflectsStep(l0: Lives, k0: set<NodeKey>, u0: seq<nat>, l2: Lives, k2: set<NodeKey>, u2: seq<nat>,
                     safe_hash: Bytes -> nat, history: seq<Item>, results: seq<StoreResult>, r: StoreResult)
    requires AllPoint(l0, safe_hash, k0) && |results| < |history| && Reflects(l0, safe_hash, k0, history, results)
    requires StoreDone(r, safe_hash, l0, k0, u0, l2, k2, u2, history[|results|].key, history[|results|].val)
    requires !r.Truncated()
    ensures AllPoint(l2, safe_hash, k2) && Reflects(l2, safe_hash, k2, history, results + [r])
  {
    hide StoreDone;
    DoneWhole(r, safe_hash, l0, k0, u0, l2, k2, u2, history[|results|].key, history[|results|].val);
    hide ValuesStored;
    forall key
      ensures ValuesOf(l2, safe_hash, k2, key) <= StoredUnder(history, |results| + 1, key)
      ensures ValuesOf(l2, safe_hash, k2, key) != {} <==> StoredKey(history, results + [r], key)
    {
      hide AllPoint;
      hide ValuesOf;
      hide StoredKey;
      hide StoredUnder;
      StoredKeyStep(history, results, r, key);
      StoredUnderStep(history, |results|, key);
      ValuesStep(l0, k0, u0, l2, k2, u2, safe_hash, history[|results|], r, key);
    }
  }

  lemma StoredUnderStep(history: seq<Item>, n: nat, key: Bytes)
    requires n < |history|
    ensures StoredUnder(history, n + 1, key) ==
      StoredUnder(history, n, key) + if key == history[n].key then {history[n].val} else {}
  {
  }

  /** What one store makes of the values of any key. */
  lemma ValuesStep(l0: Lives, k0: set<NodeKey>, u0: seq<nat>, l2: Lives, k2: set<NodeKey>, u2: seq<nat>,
                   safe_hash: Bytes -> nat, i: Item, r: StoreResult, key: Bytes)
    requires AllPoint(l0, safe_hash, k0)
    requires StoreDone(r, safe_hash, l0, k0, u0, l2, k2, u2, i.key, i.val) && !r.Truncated()
    ensures AllPoint(l2, safe_hash, k2)
    ensures ValuesOf(l2, safe_hash, k2, key) <= ValuesOf(l0, safe_hash, k0, key) + if key == i.key then {i.val} else {}
    ensures ValuesOf(l2, safe_hash, k2, key) != {} <==>
      ValuesOf(l0, safe_hash, k0, key) != {} || (key == i.key && r.Stored?)
  {
    hide AllPoint;
    if key == i.key {
      if r.Stored? {
        assert i.val in ValuesOf(l2, safe_hash, k2, key);
      } else {
        assert k2 == k0;
        NoEntryNoValue(l0, l2, safe_hash, k0, key, i.val);
      }
    }
  }

  lemma StoredKeyStep(history: seq<Item>, results: seq<StoreResult>, r: StoreResult, key: Bytes)
    requires |results| < |history|
    ensures StoredKey(history, results + [r], key) <==>
      StoredKey(history, results, key) || (history[|results|].key == key && r.Stored?)
  {
    var all := results + [r];
    if StoredKey(history, results, key) {
      var i :| 0 <= i < |results| && history[i].key == key && results[i].Stored?;
      assert all[i].Stored?;
    }
    if history[|results|].key == key && r.Stored? {
      assert all[|results|].Stored?;
    }
  }

  lemma NoEntryNoValue(l0: Lives, l2: Lives, safe_hash: Bytes -> nat, keys: set<NodeKey>, key: Bytes, val: Bytes)
    requires AllPoint(l0, safe_hash, keys) && AllPoint(l2, safe_hash, keys)
    requires ValuesStored(l0, l2, safe_hash, keys, keys, key, val)
    ensures ValuesOf(l2, safe_hash, keys, key) != {} <==> ValuesOf(l0, safe_hash, keys, key) != {}
  {
    if v :| v in ValuesOf(l2, safe_hash, keys, key) {
      var k :| k in keys && ItemOf(l2, k).key == key && ItemOf(l2, k).val == v;
      assert ItemOf(l0, k).val in ValuesOf(l0, safe_hash, keys, key);
    }
    if v :| v in ValuesOf(l0, safe_hash, keys, key) {
      var k :| k in keys && ItemOf(l0, k).key == key && ItemOf(l0, k).val == v;
      assert ItemOf(l2, k).val in ValuesOf(l2, safe_hash, keys, key);
    }
  }

  /** The pages taken in each file after a history of stores. */
  function UsedBy(safe_hash: Bytes -> nat, history: seq<Item>): (u: seq<nat>)
    ensures |u| == IPC_DATAFILE_MAX
  {
    if history == [] then seq(IPC_DATAFILE_MAX, _ => 0)
    else
      var i := history[|history| - 1];
      UsedAfter(UsedBy(safe_hash, history[..|history| - 1]), safe_hash(i.key) % IPC_DATAFILE_MAX, PagesOf(i))
  }

  /** How store number `n` of a history ends. */
  function ResultAt(safe_hash: Bytes -> nat, history: seq<Item>, n: nat): (r: StoreResult)
    requires n < |history|
  {
    ResultOf(UsedBy(safe_hash, history[..n]), safe_hash(history[n].key), PagesOf(history[n]))
  }

  lemma UsedByStep(safe_hash: Bytes -> nat, history: seq<Item>, n: nat)
    requires n < |history|
    ensures UsedBy(safe_hash, history[..n + 1]) ==
      UsedAfter(UsedBy(safe_hash, history[..n]), safe_hash(history[n].key) % IPC_DATAFILE_MAX, PagesOf(history[n]))
  {
    assert history[..n + 1][..n] == history[..n];
  }

  /** The pages of those items whose hash selects file `f`. */
  function PagesFor(safe_hash: Bytes -> nat, history: seq<Item>, f: nat): (n: nat) {
    if history == [] then 0
    else
      var i := history[|history| - 1];
      PagesFor(safe_hash, history[..|history| - 1], f)
      + if safe_hash(i.key) % IPC_DATAFILE_MAX == f then PagesOf(i) else 0
  }

  /** No file has to take more pages than it has. */
  ghost predicate FitsFiles(safe_hash: Bytes -> nat, history: seq<Item>) {
    forall f :: 0 <= f < IPC_DATAFILE_MAX ==> PagesLeft(0, PagesFor(safe_hash, history, f))
  }

  lemma {:induction false} PagesForGrow(safe_hash: Bytes -> nat, history: seq<Item>, n: nat, f: nat)
    requires n <= |history|
    ensures PagesFor(safe_hash, history[..n], f) <= PagesFor(safe_hash, history, f)
    decreases |history| - n
  {
    if n < |history| {
      assert history[..n + 1][..n] == history[..n];
      PagesForGrow(safe_hash, history, n + 1, f);
    } else {
      assert history[..n] == history;
    }
  }

  /** An item goes to the file that its hash selects if that has the pages. */
  lemma HomeTakes(used: seq<nat>, hash: nat, n: nat)
    requires |used| == IPC_DATAFILE_MAX && PagesLeft(used[hash % IPC_DATAFILE_MAX], n)
    ensures var m := hash % IPC_DATAFILE_MAX;
      && FileFor(used, m, n, 0) == Some(m) && UsedAfter(used, m, n) == used[m := used[m] + n]
      && ResultOf(used, hash, n) ==
         if hash == 0 then NotIndexed else Stored(EntryFor(hash, m, OffsetOf(1 + used[m])), OffsetOf(1 + used[m]))
  {
    var m := hash % IPC_DATAFILE_MAX;
    assert FileAt(m, 0) == m;
  }

  /** Below the end of a history no file holds more. */
  lemma FitsBefore(safe_hash: Bytes -> nat, history: seq<Item>, n: nat)
    requires FitsFiles(safe_hash, history) && n <= |history|
    ensures FitsFiles(safe_hash, history[..n])
  {
    forall f | 0 <= f < IPC_DATAFILE_MAX ensures PagesLeft(0, PagesFor(safe_hash, history[..n], f)) {
      PagesForGrow(safe_hash, history, n, f);
    }
  }

  lemma PagesForStep(safe_hash: Bytes -> nat, history: seq<Item>, n: nat, f: nat)
    requires n < |history|
    ensures PagesFor(safe_hash, history[..n + 1], f) == PagesFor(safe_hash, history[..n], f)
      + if safe_hash(history[n].key) % IPC_DATAFILE_MAX == f then PagesOf(history[n]) else 0
  {
    assert history[..n + 1][..n] == history[..n];
  }

  /** While every file can take the items whose hash selects it, each of them goes there. */
  lemma {:induction false} UsedAtHome(safe_hash: Bytes -> nat, history: seq<Item>)
    requires FitsFiles(safe_hash, history)
    ensures forall f :: 0 <= f < IPC_DATAFILE_MAX ==> UsedBy(safe_hash, history)[f] == PagesFor(safe_hash, history, f)
  {
    if history != [] {
      hide FileFor;
      hide ResultOf;
      hide UsedAfter;
      hide PagesOf;
      var n := |history| - 1;
      var hash := safe_hash(history[n].key);
      assert history[..n + 1] == history;
      FitsBefore(safe_hash, history, n);
      UsedAtHome(safe_hash, history[..n]);
      assert PagesLeft(0, PagesFor(safe_hash, history, hash % IPC_DATAFILE_MAX));
      PagesForStep(safe_hash, history, n, hash % IPC_DATAFILE_MAX);
      HomeTakes(UsedBy(safe_hash, history[..n]), hash, PagesOf(history[n]));
    }
  }

  /** How each store of such a history ends, from the sizes of the items alone. */
  lemma ResultAtHome(safe_hash: Bytes -> nat, history: seq<Item>, n: nat)
    requires FitsFiles(safe_hash, history) && n < |history|
    ensures var hash := safe_hash(history[n].key);
      var home := hash % IPC_DATAFILE_MAX;
      var offset := OffsetOf(1 + PagesFor(safe_hash, history[..n], home));
      ResultAt(safe_hash, history, n) == if hash == 0 then NotIndexed else Stored(EntryFor(hash, home, offset), offset)
  {
    hide FileFor;
    hide ResultOf;
    hide UsedBy;
    hide PagesOf;
    hide PagesFor;
    var hash := safe_hash(history[n].key);
    var home := hash % IPC_DATAFILE_MAX;
    FitsBefore(safe_hash, history, n);
    UsedAtHome(safe_hash, history[..n]);
    FitsBefore(safe_hash, history, n + 1);
    assert PagesLeft(0, PagesFor(safe_hash, history[..n + 1], home));
    PagesForStep(safe_hash, history, n, home);
    HomeTakes(UsedBy(safe_hash, history[..n]), hash, PagesOf(history[n]));
  }

  /** No store of the history loses offset bits. */
  ghost predicate NoneTruncated(safe_hash: Bytes -> nat, history: seq<Item>) {
    forall n :: 0 <= n < |history| ==> !ResultAt(safe_hash, history, n).Truncated()
  }

  /** The items in front of item `n` in its file end below the limit, or it gets no entry anyway. */
  predicate Addressable(safe_hash: Bytes -> nat, history: seq<Item>, n: nat)
    requires n < |history|
  {
    var hash := safe_hash(history[n].key);
    hash == 0 || OffsetOf(1 + PagesFor(safe_hash, history[..n], hash % IPC_DATAFILE_MAX)) < OFFSET_LIMIT
  }

  /** The exact condition for a history that the files can take: for every item, those in front of it in
      its own file end below 2^24. */
  lemma NoneTruncatedIff(safe_hash: Bytes -> nat, history: seq<Item>)
    requires FitsFiles(safe_hash, history)
    ensures NoneTruncated(safe_hash, history) <==>
      forall n :: 0 <= n < |history| ==> Addressable(safe_hash, history, n)
  {
    hide ResultAt;
    hide FitsFiles;
    hide PagesFor;
    forall n | 0 <= n < |history|
      ensures ResultAt(safe_hash, history, n).Truncated() <==> !Addressable(safe_hash, history, n)
    {
      ResultAtHome(safe_hash, history, n);
    }
  }

  /** The results of the first stores of a history are those known beforehand. */
  ghost predicate AsForetold(safe_hash: Bytes -> nat, history: seq<Item>, results: seq<StoreResult>) {
    |results| <= |history| && forall i :: 0 <= i < |results| ==> results[i] == ResultAt(safe_hash, history, i)
  }

  lemma NothingForetold(safe_hash: Bytes -> nat, history: seq<Item>)
    ensures AsForetold(safe_hash, history, [])
  {
  }

  lemma ForetoldStep(safe_hash: Bytes -> nat, history: seq<Item>, results: seq<StoreResult>, r: StoreResult)
    requires AsForetold(safe_hash, history, results) && |results| < |history|
    requires r == ResultAt(safe_hash, history, |results|)
    ensures AsForetold(safe_hash, history, results + [r])
  {
    hide ResultAt;
  }

  /** Any history of stores in an empty database, up to the first store whose entry cannot hold its offset:
      how each store ends is known beforehand. */
  method Replay(db: Database, history: seq<Item>) returns (results: seq<StoreResult>)
    requires db.Valid() && db.inst.keys == {} && db.used == seq(IPC_DATAFILE_MAX, _ => 0)
    requires forall i :: 0 <= i < |history| ==> Storable(history[i])
    modifies db`used, db.Repr()
    ensures AsForetold(db.safe_hash, history, results)
    ensures forall i :: 0 <= i < |results| - 1 ==> !results[i].Truncated()
    ensures results == [] || !results[|results| - 1].Truncated() ==>
      |results| == |history| && db.Valid() && Reflects(db.AllLives(), db.safe_hash, db.inst.keys, history, results)
  {
    hide ValuesOf;
    hide UsedBy;
    hide ResultAt;
    hide Reflects;
    hide AsForetold;
    hide StoreResult.Truncated;
    hide Database.AllLives;
    hide AllPoint;
    hide Database.FilesOk;
    hide Database.AllPacked;
    hide TreeInstance.Valid;
    NothingForetold(db.safe_hash, history);
    NothingStored(db.AllLives(), db.safe_hash, history);
    results := [];
    assert history[..0] == [];
    while |results| < |history|
      invariant |results| <= |history| && db.Valid()
      invariant Reflects(db.AllLives(), db.safe_hash, db.inst.keys, history, results)
      invariant forall i :: 0 <= i < |results| ==> !results[i].Truncated()
      invariant AsForetold(db.safe_hash, history, results)
      invariant db.used == UsedBy(db.safe_hash, history[..|results|])
    {
      var r := StoreNext(db, history, results);
      ForetoldStep(db.safe_hash, history, results, r);
      results := results + [r];
      if r.Truncated() {
        return;
      }
    }
  }

  method StoreNext(db: Database, history: seq<Item>, results: seq<StoreResult>) returns (r: StoreResult)
    requires db.Valid() && |results| < |history| && Storable(history[|results|])
    requires db.used == UsedBy(db.safe_hash, history[..|results|])
    requires Reflects(db.AllLives(), db.safe_hash, db.inst.keys, history, results)
    modifies db`used, db.Repr()
    ensures r == ResultAt(db.safe_hash, history, |results|)
    ensures db.used == UsedBy(db.safe_hash, history[..|results| + 1])
    ensures !r.Truncated() ==> db.Valid() && Reflects(db.AllLives(), db.safe_hash, db.inst.keys, history, results + [r])
  {
    hide CallsFor;
    hide Renewed;
    hide TreeDone;
    hide StoreDone;
    hide TreeInstance.Valid;
    hide Database.FilesOk;
    hide Reflects;
    hide UsedBy;
    hide UsedAfter;
    hide ResultOf;
    hide PagesOf;
    hide Database.AllPacked;
    hide Database.AllLives;
    UsedByStep(db.safe_hash, history, |results|);
    var i := history[|results|];
    ghost var l0, k0, u0 := db.AllLives(), db.inst.keys, db.used;
    r := db.Store(i.key, i.val);
    DoneCounts(r, db.safe_hash, l0, k0, u0, db.AllLives(), db.inst.keys, db.used, i);
    if !r.Truncated() {
      ReflectsStep(l0, k0, u0, db.AllLives(), db.inst.keys, db.used, db.safe_hash, history, results, r);
    }
  }

  lemma DoneCounts(r: StoreResult, safe_hash: Bytes -> nat, l0: Lives, k0: set<NodeKey>, u0: seq<nat>,
                   l2: Lives, k2: set<NodeKey>, u2: seq<nat>, i: Item)
    requires StoreDone(r, safe_hash, l0, k0, u0, l2, k2, u2, i.key, i.val)
    ensures |u0| == IPC_DATAFILE_MAX && r == ResultOf(u0, safe_hash(i.key), PagesOf(i))
    ensures u2 == UsedAfter(u0, safe_hash(i.key) % IPC_DATAFILE_MAX, PagesOf(i))
  {
    hide ValuesStored;
  }

  lemma NothingStored(lives: Lives, safe_hash: Bytes -> nat, history: seq<Item>)
    ensures AllPoint(lives, safe_hash, {}) && Reflects(lives, safe_hash, {}, history, [])
    ensures UsedBy(safe_hash, []) == seq(IPC_DATAFILE_MAX, _ => 0)
  {
  }

  /** The key/value law: after any history of stores of which none lost offset bits, a search fails exactly
      for the keys of which no store got an entry, and for a key stored once it returns exactly the value
      stored. */
  method ReplayAndSearch(safe_hash: Bytes -> nat, history: seq<Item>, key: Bytes) returns (r: Option<Bytes>)
    requires forall i :: 0 <= i < |history| ==> Storable(history[i])
    requires NoneTruncated(safe_hash, history)
    ensures r.None? <==>
      forall i :: 0 <= i < |history| && history[i].key == key ==> !ResultAt(safe_hash, history, i).Stored?
    ensures r.Some? ==> Item(key, r.value) in history
    ensures forall i :: 0 <= i < |history| && OnceAt(history, i, key) ==>
      r == if ResultAt(safe_hash, history, i).Stored? then Some(history[i].val) else None
  {
    hide CallsFor;
    hide LastFor;
    hide ValueAt;
    hide ValuesOf;
    hide AllPoint;
    hide Database.FilesOk;
    hide TreeInstance.Valid;
    hide Reflects;
    hide ResultAt;
    hide OnceAt;
    var db := new Database(safe_hash);
    var results := Replay(db, history);
    r := db.Search(key);
    ReflectedValue(db.AllLives(), safe_hash, db.inst.keys, history, results, key, r);
  }

  /** Store number `i` is the only one of `key`. */
  ghost predicate OnceAt(history: seq<Item>, i: nat, key: Bytes) {
    i < |history| && history[i].key == key && forall j :: 0 <= j < |history| && j != i ==> history[j].key != key
  }

  /** The items whose hash selects a file end below 2^24, in every file. */
  ghost predicate InBudget(safe_hash: Bytes -> nat, history: seq<Item>) {
    forall f :: 0 <= f < IPC_DATAFILE_MAX ==> OffsetOf(1 + PagesFor(safe_hash, history, f)) <= OFFSET_LIMIT
  }

  lemma BudgetFits(safe_hash: Bytes -> nat, history: seq<Item>)
    requires InBudget(safe_hash, history)
    ensures FitsFiles(safe_hash, history)
  {
    hide PagesFor;
  }

  /** The law for keys and sizes that a caller can check: no key has hash 0, and the items that go to one
      file end below 2^24. */
  lemma AllStored(safe_hash: Bytes -> nat, history: seq<Item>)
    requires forall i :: 0 <= i < |history| ==> safe_hash(history[i].key) != 0
    requires InBudget(safe_hash, history)
    ensures NoneTruncated(safe_hash, history)
    ensures forall i :: 0 <= i < |history| ==> ResultAt(safe_hash, history, i).Stored?
  {
    hide ResultAt;
    hide Addressable;
    hide InBudget;
    hide EntryFor;
    BudgetFits(safe_hash, history);
    hide FitsFiles;
    hide PagesFor;
    hide OffsetOf;
    forall i | 0 <= i < |history|
      ensures ResultAt(safe_hash, history, i).Stored? && Addressable(safe_hash, history, i)
    {
      BudgetAddresses(safe_hash, history, i);
      ResultAtHome(safe_hash, history, i);
    }
    NoneTruncatedIff(safe_hash, history);
  }

  lemma BudgetAddresses(safe_hash: Bytes -> nat, history: seq<Item>, n: nat)
    requires n < |history|
    requires InBudget(safe_hash, history)
    ensures Addressable(safe_hash, history, n)
  {
    hide PagesFor;
    hide PagesOf;
    var home := safe_hash(history[n].key) % IPC_DATAFILE_MAX;
    assert OffsetOf(1 + PagesFor(safe_hash, history, home)) <= OFFSET_LIMIT;
    PagesForGrow(safe_hash, history, n + 1, home);
    PagesForStep(safe_hash, history, n, home);
  }

  /** What a search can return after a history. */
  lemma ReflectedValue(lives: Lives, safe_hash: Bytes -> nat, keys: set<NodeKey>, history: seq<Item>,
                       results: seq<StoreResult>, key: Bytes, r: Option<Bytes>)
    requires AllPoint(lives, safe_hash, keys) && |results| == |history|
    requires Reflects(lives, safe_hash, keys, history, results)
    requires r.None? <==> ValuesOf(lives, safe_hash, keys, key) == {}
    requires r.Some? ==> r.value in ValuesOf(lives, safe_hash, keys, key)
    ensures r.None? <==> forall i :: 0 <= i < |history| && history[i].key == key ==> !results[i].Stored?
    ensures r.Some? ==> Item(key, r.value) in history
    ensures forall i :: 0 <= i < |history| && OnceAt(history, i, key) ==>
      r == if results[i].Stored? then Some(history[i].val) else None
  {
    hide AllPoint;
    hide ValuesOf;
    assert r.None? <==> !StoredKey(history, results, key);
    if r.Some? {
      assert r.value in StoredUnder(history, |results|, key);
      var i :| 0 <= i < |history| && history[i].key == key && history[i].val == r.value;
      assert history[i] == Item(key, r.value);
    }
  }

  /** Two keys of one hash, the first with an item that fills its file up to 2^24: the entry of the second
      item is cut down to that of the first, so the second key, although stored, is not found. */
  method LostStore(safe_hash: Bytes -> nat, first: Item, second: Item) returns (s: StoreResult, r: Option<Bytes>)
    requires Storable(first) && Storable(second) && first.key != second.key
    requires safe_hash(first.key) == safe_hash(second.key) != 0
    requires PagesOf(first) * IPC_DATAFILE_ALIGNED == OFFSET_LIMIT && PagesLeft(PagesOf(first), PagesOf(second))
    ensures s.Stored? && s.Truncated() && r == None
  {
    hide CallsFor;
    hide LastFor;
    hide ValueAt;
    hide Renewed;
    hide TreeDone;
    hide Database.FilesOk;
    hide TreeInstance.Valid;
    hide AllPoint;
    hide PagesOf;
    hide StoreDone;
    hide Database.AllPacked;
    hide Database.AllLives;
    hide ValuesOf;
    hide OnlyEntry;
    var db := new Database(safe_hash);
    ghost var l0, u0 := db.AllLives(), db.used;
    var one := db.Store(first.key, first.val);
    OneStored(l0, u0, db.AllLives(), db.inst.keys, db.used, safe_hash, first, one);
    ghost var l1, k1, u1 := db.AllLives(), db.inst.keys, db.used;
    s := db.Store(second.key, second.val);
    SameEntry(one, l1, k1, u1, db.AllLives(), db.inst.keys, db.used, safe_hash, first, second, s);
    r := db.Search(second.key);
  }

  /** Such keys and items exist. */
  method LostExample() returns (s: StoreResult, r: Option<Bytes>)
    ensures s.Stored? && s.Truncated() && r == None
  {
    var first := Item([1], seq(OFFSET_LIMIT - ITEM_HEADER_SIZE - 1, _ => 0 as byte));
    assert PagesOf(first) * IPC_DATAFILE_ALIGNED == OFFSET_LIMIT;
    s, r := LostStore(_ => 1, first, Item([2], [0]));
  }

  /** The first store in a new database. */
  lemma OneStored(l0: Lives, u0: seq<nat>, l1: Lives, k1: set<NodeKey>, u1: seq<nat>, safe_hash: Bytes -> nat,
                  i: Item, s: StoreResult)
    requires StoreDone(s, safe_hash, l0, {}, u0, l1, k1, u1, i.key, i.val)
    requires u0 == seq(IPC_DATAFILE_MAX, _ => 0) && PagesLeft(0, PagesOf(i)) && safe_hash(i.key) != 0
    ensures var home := safe_hash(i.key) % IPC_DATAFILE_MAX;
      && s == Stored(NodeKey(safe_hash(i.key), home, OffsetOf(1)), OffsetOf(1)) && !s.Truncated()
      && k1 == {s.entry} && u1 == u0[home := PagesOf(i)]
    ensures AllPoint(l1, safe_hash, k1) && OnlyEntry(l1, safe_hash, k1, i.key, s.entry) && ItemOf(l1, s.entry) == i
    ensures forall key :: key != i.key ==> ValuesOf(l1, safe_hash, k1, key) == {}
  {
    hide ValuesStored;
    assert k1 == {} + {s.entry} == {s.entry};
  }

  lemma CutToFirst(n: nat)
    requires n * IPC_DATAFILE_ALIGNED == OFFSET_LIMIT
    ensures OffsetOf(1 + n) >= OFFSET_LIMIT && OffsetOf(1 + n) % OFFSET_LIMIT == OffsetOf(1)
  {
  }

  lemma SameEntry(one: StoreResult, l1: Lives, k1: set<NodeKey>, u1: seq<nat>, l2: Lives, k2: set<NodeKey>,
                  u2: seq<nat>, safe_hash: Bytes -> nat, first: Item, second: Item, s: StoreResult)
    requires StoreDone(s, safe_hash, l1, k1, u1, l2, k2, u2, second.key, second.val)
    requires var home := safe_hash(first.key) % IPC_DATAFILE_MAX;
      one == Stored(NodeKey(safe_hash(first.key), home, OffsetOf(1)), OffsetOf(1)) && k1 == {one.entry}
      && |u1| == IPC_DATAFILE_MAX && u1[home] == PagesOf(first)
    requires safe_hash(first.key) == safe_hash(second.key) != 0
    requires PagesOf(first) * IPC_DATAFILE_ALIGNED == OFFSET_LIMIT && PagesLeft(PagesOf(first), PagesOf(second))
    requires AllPoint(l1, safe_hash, k1) && ValuesOf(l1, safe_hash, k1, second.key) == {}
    ensures s.Stored? && s.Truncated() && s.entry in k1
    ensures AllPoint(l2, safe_hash, k2) && ValuesOf(l2, safe_hash, k2, second.key) == {}
  {
    HomeTakes(u1, safe_hash(second.key), PagesOf(second));
    CutToFirst(PagesOf(first));
    hide FileFor;
    hide ResultOf;
    hide UsedAfter;
    hide PagesOf;
    hide OffsetOf;
    hide ValuesOf;
    hide ValuesStored;
    hide AllPoint;
    assert s.entry == one.entry && k2 == k1;
    NoEntryNoValue(l1, l2, safe_hash, k1, second.key, second.val);
  }

  /** Storing a key again, whatever the size of the index: the next search returns the new value or one that
      the key had. If it had one entry, `e`, a value that fits over the old one is found for certain. In an
      index of one node the value found is known: it is the new one if and only if that fits over the value
      of the least entry or its own entry comes first. */
  method StoreAgain(db: Database, key: Bytes, val: Bytes, ghost e: NodeKey) returns (s: StoreResult, r: Option<Bytes>)
    requires db.Valid() && Storable(Item(key, val))
    requires LeastEntry(db.AllLives(), db.safe_hash, db.inst.keys, key, e)
    modifies db`used, db.Repr()
    ensures StoreDone(s, db.safe_hash, old(db.AllLives()), old(db.inst.keys), old(db.used),
      db.AllLives(), db.inst.keys, db.used, key, val)
    ensures !s.Truncated() ==> r.Some? && r.value in old(db.Values(key)) + {val}
    ensures var old_val := old(ItemOf(db.AllLives(), e)).val;
      !s.Truncated() && old(OnlyEntry(db.AllLives(), db.safe_hash, db.inst.keys, key, e)) ==>
        if FitsOver(Item(key, old_val), val) then r == Some(val)
        else r == Some(old_val) || (s.Stored? && r == Some(val))
    ensures var old_val := old(ItemOf(db.AllLives(), e)).val;
      s.Stored? && !s.Truncated() && |old(db.inst.keys)| < TREE_NODECOUNT ==>
        r == Some(if FitsOver(Item(key, old_val), val) || Less(s.entry, e) then val else old_val)
  {
    hide CallsFor;
    hide LastFor;
    hide ValueAt;
    hide Renewed;
    hide TreeDone;
    hide StoreDone;
    hide AllPoint;
    hide OnlyEntry;
    hide LeastEntry;
    hide ValuesOf;
    hide FitsOver;
    hide PagesOf;
    hide Database.AllLives;
    hide Database.AllPacked;
    hide Database.FilesOk;
    hide TreeInstance.Valid;
    ghost var l0, k0, u0 := db.AllLives(), db.inst.keys, db.used;
    assert db.Values(key) == ValuesOf(l0, db.safe_hash, k0, key);
    s := db.Store(key, val);
    r := None;
    if !s.Truncated() {
      ghost var l2, k2 := db.AllLives(), db.inst.keys;
      r := db.Search(key);
      ValuesAgain(s, db.safe_hash, l0, k0, u0, l2, k2, db.used, key, val, e, r);
      if s.Stored? {
        LeastAfter(l0, k0, u0, l2, k2, db.used, db.safe_hash, key, val, s, e);
      }
    }
  }

  /** The values of a key that had an entry, after it was stored again. */
  lemma ValuesAgain(s: StoreResult, safe_hash: Bytes -> nat, l0: Lives, k0: set<NodeKey>, u0: seq<nat>, l2: Lives,
                    k2: set<NodeKey>, u2: seq<nat>, key: Bytes, val: Bytes, e: NodeKey, r: Option<Bytes>)
    requires AllPoint(l0, safe_hash, k0) && LeastEntry(l0, safe_hash, k0, key, e)
    requires !s.Truncated() && StoreDone(s, safe_hash, l0, k0, u0, l2, k2, u2, key, val) && AllPoint(l2, safe_hash, k2)
    requires r.None? <==> ValuesOf(l2, safe_hash, k2, key) == {}
    requires r.Some? ==> r.value in ValuesOf(l2, safe_hash, k2, key)
    ensures r.Some? && r.value in ValuesOf(l0, safe_hash, k0, key) + {val}
    ensures OnlyEntry(l0, safe_hash, k0, key, e) ==>
      if FitsOver(Item(key, ItemOf(l0, e).val), val) then r == Some(val)
      else r == Some(ItemOf(l0, e).val) || (s.Stored? && r == Some(val))
  {
    hide PagesOf;
    hide ResultOf;
    hide UsedAfter;
    DoneWhole(s, safe_hash, l0, k0, u0, l2, k2, u2, key, val);
    assert ItemOf(l0, e) == Item(key, ItemOf(l0, e).val);
    assert ItemOf(l2, e).val in ValuesOf(l2, safe_hash, k2, key);
    var k :| k in k2 && ItemOf(l2, k).key == key && ItemOf(l2, k).val == r.value;
  }

  /** The least entry for a key whose least entry was `e` before it was stored again. */
  lemma LeastAfter(l0: Lives, k0: set<NodeKey>, u0: seq<nat>, l2: Lives, k2: set<NodeKey>, u2: seq<nat>,
                   safe_hash: Bytes -> nat, key: Bytes, val: Bytes, s: StoreResult, e: NodeKey)
    requires AllPoint(l0, safe_hash, k0) && LeastEntry(l0, safe_hash, k0, key, e)
    requires s.Stored? && !s.Truncated() && StoreDone(s, safe_hash, l0, k0, u0, l2, k2, u2, key, val)
    ensures AllPoint(l2, safe_hash, k2) && k2 == k0 + {s.entry} && s.entry !in k0
    ensures var least := if Less(s.entry, e) then s.entry else e;
      && LeastEntry(l2, safe_hash, k2, key, least)
      && (SureEntry(l0, safe_hash, k0, key, e) ==>
          ItemOf(l2, least).val ==
            if FitsOver(Item(key, ItemOf(l0, e).val), val) || Less(s.entry, e) then val else ItemOf(l0, e).val)
  {
    hide PagesOf;
    hide ValuesOf;
    assert ItemOf(l0, e) == Item(key, ItemOf(l0, e).val);
    CompareIsStrictOrder(s.entry, e, e);
    CompareIsStrictOrder(e, s.entry, s.entry);
    CompareIsStrictOrder(e, e, e);
    forall k | k in k2 && ItemOf(l2, k).key == key && Less(s.entry, e) ensures !Less(k, s.entry) {
      CompareIsStrictOrder(k, s.entry, e);
    }
  }

  /** Two stores of one key in a new database: the search returns the second value if and only if
      it fits over the first. Otherwise the new item lies behind the old one, and the search stops
      at the old one. */
  method StoreTwice(safe_hash: Bytes -> nat, key: Bytes, v1: Bytes, v2: Bytes) returns (r: Option<Bytes>)
    requires safe_hash(key) != 0 && Storable(Item(key, v1)) && Storable(Item(key, v2))
    requires PagesLeft(PagesOf(Item(key, v1)), PagesOf(Item(key, v2)))
    requires OffsetOf(1 + PagesOf(Item(key, v1))) < OFFSET_LIMIT
    ensures r == Some(if (24 + |key| + |v2| + 127) / 128 <= (24 + |key| + |v1| + 127) / 128 then v2 else v1)
  {
    FitsInLengths(key, v1, v2);
    hide FitsOver;
    hide CallsFor;
    hide LastFor;
    hide ValueAt;
    hide Renewed;
    hide TreeDone;
    hide Database.FilesOk;
    hide TreeInstance.Valid;
    hide AllPoint;
    hide PagesOf;
    hide StoreDone;
    hide OnlyEntry;
    hide LeastEntry;
    var db := new Database(safe_hash);
    ghost var l0, u0 := db.AllLives(), db.used;
    var first := db.Store(key, v1);
    OneStored(l0, u0, db.AllLives(), db.inst.keys, db.used, safe_hash, Item(key, v1), first);
    OnlyIsLeast(db.AllLives(), safe_hash, db.inst.keys, key, first.entry);
    ghost var l1, k1, u1 := db.AllLives(), db.inst.keys, db.used;
    var second;
    second, r := StoreAgain(db, key, v2, first.entry);
    SecondEntry(first, l1, k1, u1, db.AllLives(), db.inst.keys, db.used, safe_hash, key, v1, v2, second);
  }

  lemma FitsInLengths(key: Bytes, v1: Bytes, v2: Bytes)
    ensures FitsOver(Item(key, v1), v2) <==> (24 + |key| + |v2| + 127) / 128 <= (24 + |key| + |v1| + 127) / 128
  {
    NoMorePagesIff(key, v1, v2);
    hide PagesOf;
  }

  /** The limit is sharp: 100 bytes under a key of 4 bytes fill one page, and 101 bytes do not fit over them. */
  method OneByteMore() returns (r: Option<Bytes>)
    ensures r == Some(seq(100, _ => 1))
  {
    var key, v1, v2 := seq(4, _ => 0 as byte), seq(100, _ => 1 as byte), seq(101, _ => 2 as byte);
    PagesOfIff(Item(key, v1), 1);
    PagesOfIff(Item(key, v2), 2);
    hide PagesOf;
    r := StoreTwice(_ => 1, key, v1, v2);
  }

  lemma OnlyIsLeast(lives: Lives, safe_hash: Bytes -> nat, keys: set<NodeKey>, key: Bytes, e: NodeKey)
    requires AllPoint(lives, safe_hash, keys) && OnlyEntry(lives, safe_hash, keys, key, e)
    ensures LeastEntry(lives, safe_hash, keys, key, e)
  {
    CompareIsStrictOrder(e, e, e);
  }

  lemma SecondEntry(first: StoreResult, l1: Lives, k1: set<NodeKey>, u1: seq<nat>, l2: Lives, k2: set<NodeKey>,
                    u2: seq<nat>, safe_hash: Bytes -> nat, key: Bytes, v1: Bytes, val: Bytes, s: StoreResult)
    requires StoreDone(s, safe_hash, l1, k1, u1, l2, k2, u2, key, val) && safe_hash(key) != 0
    requires first.Stored? && first.entry == NodeKey(safe_hash(key), safe_hash(key) % IPC_DATAFILE_MAX, OffsetOf(1))
    requires |u1| == IPC_DATAFILE_MAX && u1[safe_hash(key) % IPC_DATAFILE_MAX] == PagesOf(Item(key, v1))
    requires PagesLeft(PagesOf(Item(key, v1)), PagesOf(Item(key, val)))
    requires OffsetOf(1 + PagesOf(Item(key, v1))) < OFFSET_LIMIT
    ensures s.Stored? && !s.Truncated() && !Less(s.entry, first.entry)
  {
    hide ValuesStored;
    hide AllPoint;
    hide EntryFits;
    HomeTakes(u1, safe_hash(key), PagesOf(Item(key, val)));
    hide FileFor;
    hide ResultOf;
    hide UsedAfter;
    hide PagesOf;
    WholeEntry(safe_hash(key), safe_hash(key) % IPC_DATAFILE_MAX, OffsetOf(1 + PagesOf(Item(key, v1))));
    assert OffsetOf(1) < OffsetOf(1 + PagesOf(Item(key, v1)));
    hide OffsetOf;
    hide EntryFor;
  }

  lemma WholeEntry(hash: nat, field: nat, offset: nat)
    requires offset < OFFSET_LIMIT
    ensures EntryFor(hash, field, offset) == NodeKey(hash, field, offset)
  {
  }
}
