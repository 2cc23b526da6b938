/** The C daemon's session table (bfdd_session.c), over the key/value store as a map. */
module BfdSessions {
  import opened Common
  import opened BfdProtocol

  const SESSION_KEYS_MAX := 32
  const SESSION_KEYS_LISTCNT := 128

  datatype SessKey = SessKey(addr: nat, port: nat)
  /** Which of the 32 lists of keys are in use, and how many keys each of them has. */
  datatype Manage = Manage(keys_bits: seq<bool>, keys_incnt: seq<nat>)

  /** The keys under which the store is used, and what it keeps there. */
  datatype DbKey = ManageKey | ListKey(n: nat) | SessionKey(k: SessKey)
  datatype Record = ManageRecord(mng: Manage) | ListRecord(keys: seq<SessKey>) | SessionRecord(sess: Session)

  type Db = map<DbKey, Record>

  const NO_KEY := SessKey(0, 0)

  ghost predicate ManageOk(db: Db) {
    ManageKey in db && db[ManageKey].ManageRecord?
    && |db[ManageKey].mng.keys_bits| == |db[ManageKey].mng.keys_incnt| == SESSION_KEYS_MAX
  }

  ghost function CountOf(db: Db, n: nat): (r: nat)
    requires ManageOk(db) && n < SESSION_KEYS_MAX
  {
    db[ManageKey].mng.keys_incnt[n]
  }

  /** The list of group `n`: at most 128 keys of its own hash, none twice, each with a session; and its bit is set if
      it has any. */
  ghost predicate GroupOk(db: Db, hash: SessKey -> nat, n: nat)
    requires ManageOk(db) && n < SESSION_KEYS_MAX
  {
    ListKey(n) in db && db[ListKey(n)].ListRecord? && |db[ListKey(n)].keys| == SESSION_KEYS_LISTCNT
    && CountOf(db, n) <= SESSION_KEYS_LISTCNT && (db[ManageKey].mng.keys_bits[n] <==> CountOf(db, n) > 0)
    && (forall m :: 0 <= m < CountOf(db, n) ==> InGroup(db, hash, n, db[ListKey(n)].keys[m]))
    && forall l, m :: 0 <= l < m < CountOf(db, n) ==> db[ListKey(n)].keys[l] != db[ListKey(n)].keys[m]
  }

  ghost predicate InGroup(db: Db, hash: SessKey -> nat, n: nat, k: SessKey) {
    hash(k) % SESSION_KEYS_MAX == n && SessionKey(k) in db && db[SessionKey(k)].SessionRecord?
  }

  ghost function Keys(db: Db, n: nat): (r: seq<SessKey>) {
    if ManageOk(db) && n < SESSION_KEYS_MAX && ListKey(n) in db && db[ListKey(n)].ListRecord?
       && CountOf(db, n) <= |db[ListKey(n)].keys|
    then db[ListKey(n)].keys[..CountOf(db, n)] else []
  }

  ghost predicate TableOk(db: Db, hash: SessKey -> nat) {
    ManageOk(db) && (forall n :: 0 <= n < SESSION_KEYS_MAX ==> GroupOk(db, hash, n))
    && forall k :: SessionKey(k) in db ==> k in Keys(db, hash(k) % SESSION_KEYS_MAX)
  }

  /** The keys of the groups before `n`, in the order of the iteration. */
  ghost function Order(db: Db, n: nat): (r: seq<SessKey>) {
    if n == 0 then [] else Order(db, n - 1) + Keys(db, n - 1)
  }

  lemma {:induction false} OrderGroups(db: Db, hash: SessKey -> nat, n: nat)
    requires TableOk(db, hash) && n <= SESSION_KEYS_MAX
    ensures forall k :: k in Order(db, n) <==> SessionKey(k) in db && hash(k) % SESSION_KEYS_MAX < n
  {
    if n > 0 {
      OrderGroups(db, hash, n - 1);
      assert GroupOk(db, hash, n - 1);
    }
  }

  /** The iteration's order has every stored session once. */
  lemma {:induction false} OrderOnce(db: Db, hash: SessKey -> nat, n: nat)
    requires TableOk(db, hash) && n <= SESSION_KEYS_MAX
    ensures forall i, j :: 0 <= i < j < |Order(db, n)| ==> Order(db, n)[i] != Order(db, n)[j]
    ensures forall k :: k in Order(db, SESSION_KEYS_MAX) <==> SessionKey(k) in db
  {
    OrderGroups(db, hash, SESSION_KEYS_MAX);
    if n > 0 {
      OrderOnce(db, hash, n - 1);
      OrderGroups(db, hash, n - 1);
      assert GroupOk(db, hash, n - 1);
      JoinDistinct(Order(db, n - 1), Keys(db, n - 1));
    }
  }

  /** The groups come in ascending order. */
  lemma {:induction false} OrderAscends(db: Db, hash: SessKey -> nat, n: nat)
    requires TableOk(db, hash) && n <= SESSION_KEYS_MAX
    ensures forall i, j :: 0 <= i < j < |Order(db, n)| ==>
      hash(Order(db, n)[i]) % SESSION_KEYS_MAX <= hash(Order(db, n)[j]) % SESSION_KEYS_MAX
  {
    if n > 0 {
      OrderAscends(db, hash, n - 1);
      OrderGroups(db, hash, n - 1);
      assert GroupOk(db, hash, n - 1);
      var first, last := Order(db, n - 1), Keys(db, n - 1);
      assert forall i :: 0 <= i < |first| ==> first[i] in first;
      assert forall i :: 0 <= i < |last| ==> hash(last[i]) % SESSION_KEYS_MAX == n - 1;
    }
  }

  lemma JoinDistinct(a: seq<SessKey>, b: seq<SessKey>)
    requires forall i, j :: 0 <= i < j < |a| ==> a[i] != a[j]
    requires forall i, j :: 0 <= i < j < |b| ==> b[i] != b[j]
    requires forall k :: k in a ==> k !in b
    ensures forall i, j :: 0 <= i < j < |a + b| ==> (a + b)[i] != (a + b)[j]
  {
    forall i, j | 0 <= i < j < |a + b| ensures (a + b)[i] != (a + b)[j] {
      if i < |a| <= j {
        assert a[i] in a && b[j - |a|] in b;
      }
    }
  }

  // ---- insertion ----

  /** What a search for the session of `k` finds. */
  ghost function Stored(db: Db, k: SessKey): (r: Option<Session>) {
    if SessionKey(k) in db && db[SessionKey(k)].SessionRecord? then Some(db[SessionKey(k)].sess) else None
  }

  function NoKeys(): (r: seq<SessKey>) {
    seq(SESSION_KEYS_LISTCNT, _ => NO_KEY)
  }

  function NewManage(): (r: Manage) {
    Manage(seq(SESSION_KEYS_MAX, _ => false), seq(SESSION_KEYS_MAX, _ => 0))
  }

  /** The three writes for a new session. */
  function Added(db: Db, n: nat, mng: Manage, keys: seq<SessKey>, k: SessKey, s: Session): (r: Db) {
    db[SessionKey(k) := SessionRecord(s)][ManageKey := ManageRecord(mng)][ListKey(n) := ListRecord(keys)]
  }

  lemma AddedStored(db: Db, n: nat, mng: Manage, keys: seq<SessKey>, k: SessKey, s: Session)
    ensures Stored(Added(db, n, mng, keys, k, s), k) == Some(s)
    ensures forall j :: j != k ==> Stored(Added(db, n, mng, keys, k, s), j) == Stored(db, j)
  {
  }

  lemma UpdatedStored(db: Db, k: SessKey, s: Session)
    ensures Stored(db[SessionKey(k) := SessionRecord(s)], k) == Some(s)
    ensures forall j :: j != k ==> Stored(db[SessionKey(k) := SessionRecord(s)], j) == Stored(db, j)
  {
  }

  lemma UpdateKeeps(db: Db, hash: SessKey -> nat, k: SessKey, s: Session)
    requires TableOk(db, hash) && SessionKey(k) in db
    ensures TableOk(db[SessionKey(k) := SessionRecord(s)], hash)
    ensures forall n :: 0 <= n < SESSION_KEYS_MAX ==> Keys(db[SessionKey(k) := SessionRecord(s)], n) == Keys(db, n)
  {
    var db' := db[SessionKey(k) := SessionRecord(s)];
    forall n | 0 <= n < SESSION_KEYS_MAX ensures GroupOk(db', hash, n) && Keys(db', n) == Keys(db, n) {
      assert GroupOk(db, hash, n);
    }
    forall j | SessionKey(j) in db' ensures j in Keys(db', hash(j) % SESSION_KEYS_MAX) {
      assert SessionKey(j) in db;
    }
  }

  /** What insert_session finds and prepares when `k` is new and its group is not full. */
  ghost predicate Adds(db: Db, hash: SessKey -> nat, k: SessKey, mng: Manage, keys: seq<SessKey>) {
    && TableOk(db, hash) && SessionKey(k) !in db
    && var n, m := hash(k) % SESSION_KEYS_MAX, db[ManageKey].mng;
       && CountOf(db, n) < SESSION_KEYS_LISTCNT && GroupOk(db, hash, n)
       && mng == Manage(m.keys_bits[n := true], m.keys_incnt[n := m.keys_incnt[n] + 1])
       && keys == db[ListKey(n)].keys[CountOf(db, n) := k]
  }

  /** A new session keeps every group at most 128 distinct keys of its own hash, and its bit right; only the
      list of its own group gets longer, by its key. */
  lemma AddKeeps(db: Db, hash: SessKey -> nat, k: SessKey, s: Session, mng: Manage, keys: seq<SessKey>)
    requires Adds(db, hash, k, mng, keys)
    ensures var n := hash(k) % SESSION_KEYS_MAX;
      var db' := Added(db, n, mng, keys, k, s);
      && TableOk(db', hash)
      && forall g :: 0 <= g < SESSION_KEYS_MAX ==> Keys(db', g) == Keys(db, g) + if g == n then [k] else []
  {
    var n := hash(k) % SESSION_KEYS_MAX;
    var db' := Added(db, n, mng, keys, k, s);
    assert forall j :: SessionKey(j) in db' <==> SessionKey(j) in db || j == k;
    assert TableOk(db, hash) && ManageOk(db');
    hide GroupOk;
    hide Keys;
    hide Adds;
    hide Added;
    forall g | 0 <= g < SESSION_KEYS_MAX
      ensures GroupOk(db', hash, g) && Keys(db', g) == Keys(db, g) + if g == n then [k] else []
    {
      if g == n {
        GrownGroup(db, hash, k, s, mng, keys);
      } else {
        OtherGroup(db, hash, k, s, mng, keys, g);
      }
    }
  }

  lemma OtherGroup(db: Db, hash: SessKey -> nat, k: SessKey, s: Session, mng: Manage, keys: seq<SessKey>, g: nat)
    requires Adds(db, hash, k, mng, keys) && g < SESSION_KEYS_MAX && g != hash(k) % SESSION_KEYS_MAX
    ensures var db' := Added(db, hash(k) % SESSION_KEYS_MAX, mng, keys, k, s);
      ManageOk(db') && GroupOk(db', hash, g) && Keys(db', g) == Keys(db, g)
  {
    assert GroupOk(db, hash, g);
  }

  lemma GrownGroup(db: Db, hash: SessKey -> nat, k: SessKey, s: Session, mng: Manage, keys: seq<SessKey>)
    requires Adds(db, hash, k, mng, keys)
    ensures var n := hash(k) % SESSION_KEYS_MAX;
      var db' := Added(db, n, mng, keys, k, s);
      ManageOk(db') && GroupOk(db', hash, n) && Keys(db', n) == Keys(db, n) + [k]
  {
    var n := hash(k) % SESSION_KEYS_MAX;
    forall m | 0 <= m < CountOf(db, n)
      ensures keys[m] == db[ListKey(n)].keys[m] && keys[m] != k && InGroup(db, hash, n, keys[m])
    {
    }
  }

  class SessionTable {
    const safe_hash: SessKey -> nat
    var db: Db

    ghost predicate Valid()
      reads this
    {
      TableOk(db, safe_hash)
    }

    /** initialize_bfd_session_table. */
    constructor (safe_hash: SessKey -> nat)
      ensures Valid() && this.safe_hash == safe_hash && forall k :: Stored(db, k) == None
    {
      this.safe_hash := safe_hash;
      var store: Db := map[ManageKey := ManageRecord(NewManage())];
      for n := 0 to SESSION_KEYS_MAX
        invariant forall d :: d in store <==> d == ManageKey || (d.ListKey? && d.n < n)
        invariant store[ManageKey] == ManageRecord(NewManage())
        invariant forall m :: 0 <= m < n ==> store[ListKey(m)] == ListRecord(NoKeys())
      {
        store := store[ListKey(n) := ListRecord(NoKeys())];
      }
      db := store;
    }

    /** find_session. */
    method Find(k: SessKey) returns (r: Option<Session>)
      ensures r == Stored(db, k)
    {
      if SessionKey(k) !in db || !db[SessionKey(k)].SessionRecord? {
        return None;
      }
      r := Some(db[SessionKey(k)].sess);
    }

    /** insert_session: a group of 128 keys takes nothing, not even a new state of a session it has. */
    method Insert(k: SessKey, s: Session) returns (ok: bool)
      requires Valid()
      modifies this
      ensures Valid()
      ensures ok <==> |Keys(old(db), safe_hash(k) % SESSION_KEYS_MAX)| < SESSION_KEYS_LISTCNT
      ensures !ok ==> db == old(db)
      ensures ok ==> var n := safe_hash(k) % SESSION_KEYS_MAX;
        Keys(db, n) == Keys(old(db), n) + if Stored(old(db), k).None? then [k] else []
      ensures forall n :: 0 <= n < SESSION_KEYS_MAX && n != safe_hash(k) % SESSION_KEYS_MAX ==>
        Keys(db, n) == Keys(old(db), n)
      ensures ok ==> Stored(db, k) == Some(s) && forall j :: j != k ==> Stored(db, j) == Stored(old(db), j)
    {
      var hashed := safe_hash(k) % SESSION_KEYS_MAX;
      assert GroupOk(db, safe_hash, hashed);
      if ManageKey !in db || !db[ManageKey].ManageRecord? { return false; }
      var mng := db[ManageKey].mng;
      if ListKey(hashed) !in db || !db[ListKey(hashed)].ListRecord? { return false; }
      var keys := db[ListKey(hashed)].keys;
      if mng.keys_incnt[hashed] >= SESSION_KEYS_LISTCNT {
        return false;
      }
      var isupdate := KeyListed(keys, mng.keys_incnt[hashed], k);
      assert isupdate <==> Stored(db, k).Some?;
      hide Stored;
      ghost var was := db;
      db := db[SessionKey(k) := SessionRecord(s)];
      ok := true;
      if isupdate {
        UpdateKeeps(was, safe_hash, k, s);
        UpdatedStored(was, k, s);
      } else {
        var curidx := mng.keys_incnt[hashed];
        mng := Manage(mng.keys_bits[hashed := true], mng.keys_incnt[hashed := curidx + 1]);
        keys := keys[curidx := k];
        db := db[ManageKey := ManageRecord(mng)];
        db := db[ListKey(hashed) := ListRecord(keys)];
        AddKeeps(was, safe_hash, k, s, mng, keys);
        AddedStored(was, hashed, mng, keys, k, s);
      }
    }

    /** The scan for a key among the first `count` of a list. */
    method KeyListed(keys: seq<SessKey>, count: nat, k: SessKey) returns (found: bool)
      requires count <= |keys|
      ensures found <==> k in keys[..count]
    {
      for n := 0 to count
        invariant k !in keys[..n]
      {
        if keys[n] == k {
          return true;
        }
      }
      found := false;
    }

    /** iterate_all_session: the keys of the sessions that were handed to the callback. A failing callback
        ends it: its result is not released, and no later search is accepted. */
    method Iterate(itr: Session -> bool) returns (visited: seq<SessKey>)
      requires Valid()
      ensures Walked(db, itr, visited, Order(db, SESSION_KEYS_MAX))
    {
      hide GroupOk;
      hide Keys;
      visited := [];
      var mng := db[ManageKey].mng;
      var pending := false;
      for n := 0 to SESSION_KEYS_MAX
        invariant if pending then Broken(db, itr, visited, Order(db, n))
          else visited == Order(db, n) && AllSucceed(db, itr, visited)
      {
        GroupUsed(db, safe_hash, n);
        if mng.keys_bits[n] && mng.keys_incnt[n] > 0 {
          visited, pending := IterateGroup(n, mng.keys_incnt[n], itr, visited, pending);
        }
      }
    }

    /** The sessions of one list; `pending` says that the result of a search was not released. */
    method IterateGroup(n: nat, count: nat, itr: Session -> bool, before: seq<SessKey>, pending0: bool)
      returns (visited: seq<SessKey>, pending: bool)
      requires Valid() && n < SESSION_KEYS_MAX && count == CountOf(db, n)
      requires if pending0 then Broken(db, itr, before, Order(db, n))
        else before == Order(db, n) && AllSucceed(db, itr, before)
      ensures if pending then Broken(db, itr, visited, Order(db, n + 1))
        else visited == Order(db, n + 1) && AllSucceed(db, itr, visited)
    {
      GroupKeys(db, safe_hash, n);
      visited, pending := before, pending0;
      var keys := db[ListKey(n)].keys;
      ghost var order := Order(db, n);
      if pending {
        BrokenLonger(db, itr, before, order, Keys(db, n));
      }
      hide TableOk;
      hide Order;
      hide Keys;
      hide Broken;
      hide AllSucceed;
      hide Stored;
      for m := 0 to count
        invariant pending == pending0
        invariant if pending then visited == before else visited == order + keys[..m] && AllSucceed(db, itr, visited)
      {
        var resp_sess := None;
        if !pending {
          resp_sess := Find(keys[m]);
        }
        if resp_sess.Some? {
          OneMore(db, itr, visited, order, keys, m);
          visited := visited + [keys[m]];
          if !itr(resp_sess.value) {
            pending := true;
            BrokenHere(db, itr, visited, order, keys, m, count);
            return;
          }
        }
      }
    }
  }

  ghost predicate AllSucceed(db: Db, itr: Session -> bool, ks: seq<SessKey>) {
    forall i :: 0 <= i < |ks| ==> Stored(db, ks[i]).Some? && itr(Stored(db, ks[i]).value)
  }

  /** The callback failed for the last of `visited`, and for no other. */
  ghost predicate Broken(db: Db, itr: Session -> bool, visited: seq<SessKey>, order: seq<SessKey>) {
    visited <= order && visited != [] && AllSucceed(db, itr, visited[..|visited| - 1])
    && Stored(db, visited[|visited| - 1]).Some? && !itr(Stored(db, visited[|visited| - 1]).value)
  }

  /** All of `order` was visited with success, or it was visited up to the first failure. */
  ghost predicate Walked(db: Db, itr: Session -> bool, visited: seq<SessKey>, order: seq<SessKey>) {
    (visited == order && AllSucceed(db, itr, visited)) || Broken(db, itr, visited, order)
  }

  lemma BrokenHere(db: Db, itr: Session -> bool, visited: seq<SessKey>, before: seq<SessKey>, keys: seq<SessKey>,
                   m: nat, count: nat)
    requires m < count <= |keys| && visited == before + keys[..m] + [keys[m]] && AllSucceed(db, itr, before + keys[..m])
    requires Stored(db, keys[m]).Some? && !itr(Stored(db, keys[m]).value)
    ensures Broken(db, itr, visited, before + keys[..count])
  {
    assert visited[..|visited| - 1] == before + keys[..m];
    assert keys[..m] + [keys[m]] == keys[..count][..m + 1];
  }

  lemma OneMore(db: Db, itr: Session -> bool, visited: seq<SessKey>, before: seq<SessKey>, keys: seq<SessKey>, m: nat)
    requires m < |keys| && visited == before + keys[..m] && AllSucceed(db, itr, visited)
    ensures visited + [keys[m]] == before + keys[..m + 1]
    ensures Stored(db, keys[m]).Some? && itr(Stored(db, keys[m]).value) ==> AllSucceed(db, itr, visited + [keys[m]])
  {
    assert keys[..m + 1] == keys[..m] + [keys[m]];
  }

  lemma BrokenLonger(db: Db, itr: Session -> bool, visited: seq<SessKey>, order: seq<SessKey>, more: seq<SessKey>)
    requires Broken(db, itr, visited, order)
    ensures Broken(db, itr, visited, order + more)
  {
  }

  /** The list of a group: its keys, each with a session. */
  lemma GroupKeys(db: Db, hash: SessKey -> nat, n: nat)
    requires TableOk(db, hash) && n < SESSION_KEYS_MAX
    ensures ListKey(n) in db && db[ListKey(n)].ListRecord? && CountOf(db, n) <= |db[ListKey(n)].keys|
    ensures Keys(db, n) == db[ListKey(n)].keys[..CountOf(db, n)] && Order(db, n + 1) == Order(db, n) + Keys(db, n)
    ensures forall m :: 0 <= m < CountOf(db, n) ==> Stored(db, db[ListKey(n)].keys[m]).Some?
  {
    assert GroupOk(db, hash, n);
  }

  lemma GroupUsed(db: Db, hash: SessKey -> nat, n: nat)
    requires TableOk(db, hash) && n < SESSION_KEYS_MAX
    ensures db[ManageKey].mng.keys_bits[n] <==> CountOf(db, n) > 0
    ensures CountOf(db, n) == 0 ==> Order(db, n + 1) == Order(db, n)
  {
    assert GroupOk(db, hash, n);
  }

  /** With callbacks that succeed, every stored session is visited exactly once. */
  lemma VisitedOnce(db: Db, hash: SessKey -> nat, itr: Session -> bool, visited: seq<SessKey>)
    requires TableOk(db, hash) && Walked(db, itr, visited, Order(db, SESSION_KEYS_MAX)) && forall s :: itr(s)
    ensures forall k :: k in visited <==> Stored(db, k).Some?
    ensures forall i, j :: 0 <= i < j < |visited| ==> visited[i] != visited[j]
  {
    OrderOnce(db, hash, SESSION_KEYS_MAX);
    forall k | SessionKey(k) in db ensures Stored(db, k).Some? {
      var n := hash(k) % SESSION_KEYS_MAX;
      assert GroupOk(db, hash, n) && k in Keys(db, n);
    }
  }
}
