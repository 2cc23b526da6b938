/** The two daemons, step by step, against what one packet means for one session (bfdd_event.c and
    bfdd_cpp_session_manager.hpp). */
module BfdDaemons {
  import opened Common
  import opened BfdProtocol
  import opened BfdSessions
  import opened Discriminators

  /** The number of sessions in the group of `k`. */
  ghost function GroupSize(db: Db, hash: SessKey -> nat, k: SessKey): (r: nat) {
    |Keys(db, hash(k) % SESSION_KEYS_MAX)|
  }

  /** No other session than that of `k` was changed, and no other group than its own has grown. */
  ghost predicate OnlySession(db0: Db, db1: Db, hash: SessKey -> nat, k: SessKey) {
    && (forall j :: j != k ==> Stored(db1, j) == Stored(db0, j))
    && forall j :: GroupSize(db1, hash, j) == GroupSize(db0, hash, j) + Growth(db0, db1, hash, j, k)
  }

  ghost function Growth(db0: Db, db1: Db, hash: SessKey -> nat, j: SessKey, k: SessKey): (n: nat) {
    if SameGroup(hash, j, k) && Stored(db0, k).None? && Stored(db1, k).Some? then 1 else 0
  }

  lemma NoOther(db: Db, hash: SessKey -> nat, k: SessKey)
    ensures OnlySession(db, db, hash, k)
  {
  }

  lemma GrownBy(db0: Db, db1: Db, hash: SessKey -> nat, k: SessKey)
    requires OnlySession(db0, db1, hash, k)
    ensures GroupSize(db1, hash, k) ==
      GroupSize(db0, hash, k) + if Stored(db0, k).None? && Stored(db1, k).Some? then 1 else 0
  {
  }

  /** Two changes to the session of `k`, of which the second does not create it. */
  lemma OnlyOnce(db0: Db, db1: Db, db2: Db, hash: SessKey -> nat, k: SessKey)
    requires OnlySession(db0, db1, hash, k) && OnlySession(db1, db2, hash, k)
    requires Stored(db1, k).Some? && Stored(db2, k).Some?
    ensures OnlySession(db0, db2, hash, k)
  {
    hide Stored;
    hide GroupSize;
  }

  predicate SameGroup(hash: SessKey -> nat, j: SessKey, k: SessKey) {
    hash(j) % SESSION_KEYS_MAX == hash(k) % SESSION_KEYS_MAX
  }

  /** What is stored for the sender after a packet, when its group had `size` sessions: a full group
      takes no change, and a session that fills its group stays as it was created. */
  function StoredAfter(stored: Option<Session>, size: nat, p: Packet, f: Effect): (r: Option<Session>) {
    if size >= SESSION_KEYS_LISTCNT then stored
    else if stored.None? && Accepted(p) && p.your_discr == 0 && p.state == Down && size + 1 == SESSION_KEYS_LISTCNT
    then Some(FRESH)
    else f.session
  }

  /** A session that is Up has heard Init or Up, in Up or in Init, or Init in Down; and one that leaves Up has
      heard Down or AdminDown, and is in Down with code 3. */
  ghost predicate UpAfter(s: Session, heard: State, t: Session) {
    && (t.session_state == Up <==>
        if s.session_state == Down then heard == Init
        else (s.session_state == Init || s.session_state == Up) && (heard == Init || heard == Up))
    && (s.session_state == Up && (heard == Down || heard == AdminDown) ==>
        t.session_state == Down && t.local_diag == BFDDIAG_NEIGHBORSAIDDOWN)
  }

  lemma LawC(stored: Option<Session>, size: nat, p: Packet, start: nat, taken: nat)
    requires start <= COUNTER_LIMIT
    ensures var sent := RecvC(stored, p, Nth(start, taken)).sent;
      && |sent| <= 1 && (forall q :: q in sent ==> p.poll && !q.poll && q.final && q.your_discr == p.my_discr)
      && (p.poll && !Discarded(p) && stored.Some? && stored.value.session_state != AdminDown ==> |sent| == 1)
    ensures var d := Nth(start, taken);
      var f := RecvC(stored, p, d);
      size + (if stored.None? then 1 else 0) < SESSION_KEYS_LISTCNT ==>
        && StoredAfter(stored, size, p, f) == f.session && !Refused(stored, size)
        && OnPacket(false, stored, p, d, f.session, f.sent, f.allocates)
        && (!Discarded(p) && stored.Some? ==> f.session.Some? && UpAfter(stored.value, p.state, f.session.value))
  {
    Distinct(start, taken, taken + 1);
    hide Nth;
    OnPacketC(stored, p, Nth(start, taken));
    hide RecvC;
    hide Accepted;
    hide Discarded;
  }

  lemma LawCpp(stored: Option<Session>, p: Packet, start: nat, taken: nat)
    requires start <= COUNTER_LIMIT
    ensures var d := Nth(start, taken);
      var f := RecvCpp(stored, p, d);
      && OnPacket(true, stored, p, d, f.session, f.sent, f.allocates)
      && (!Discarded(p) && stored.Some? ==> f.session.Some? && UpAfter(stored.value, p.state, f.session.value))
  {
    Distinct(start, taken, taken + 1);
    hide Nth;
    OnPacketCpp(stored, p, Nth(start, taken));
    hide RecvCpp;
    hide Discarded;
  }

  /** A packet from a sender that has no session and cannot get one goes no further. */
  predicate Refused(stored: Option<Session>, size: nat) {
    stored.None? && size >= SESSION_KEYS_LISTCNT
  }

  /** A session that is new gets its discriminator, and every session learns what the packet says of the sender. */
  method Meet(counter: Counter, stored: Session, p: Packet) returns (sess: Session)
    requires counter.Valid()
    modifies counter
    ensures counter.Valid() && counter.start == old(counter.start)
    ensures sess == Learn(Attach(stored, Nth(old(counter.start), old(counter.taken))), p)
    ensures sess.remote_session_state == p.state
    ensures counter.taken == old(counter.taken) + if stored.attached then 0 else 1
  {
    sess := stored;
    if !sess.attached {
      var discr := counter.Allocate();
      sess := sess.(local_discr := discr, attached := true);
    }
    sess := sess.(remote_session_state := p.state, remote_demand_mode := p.demand, remote_discr := p.my_discr,
                  remote_min_rx_interval := p.min_rx_int);
    if p.final {
      sess := sess.(must_terminate := true);
    }
  }

  class DaemonC {
    const table: SessionTable
    const counter: Counter

    ghost predicate Valid()
      reads table, counter
    {
      table.Valid() && counter.Valid()
    }

    constructor (safe_hash: SessKey -> nat)
      ensures Valid() && fresh(table) && fresh(counter) && table.safe_hash == safe_hash
      ensures forall k :: Stored(table.db, k) == None
    {
      table := new SessionTable(safe_hash);
      counter := new Counter();
    }

    /** recv_bfd_event for a packet from `k`; `sent` are the packets sent back at once. */
    method RecvBfdEvent(k: SessKey, p: Packet) returns (sent: seq<Packet>)
      requires Valid()
      modifies table, counter
      ensures Valid()
      ensures var stored, size := Stored(old(table.db), k), GroupSize(old(table.db), table.safe_hash, k);
        var f := RecvC(stored, p, Nth(old(counter.start), old(counter.taken)));
        Stored(table.db, k) == StoredAfter(stored, size, p, f)
        && sent == (if Refused(stored, size) then [] else f.sent)
        && counter.taken == old(counter.taken) + (if f.allocates && !Refused(stored, size) then 1 else 0)
      ensures OnlySession(old(table.db), table.db, table.safe_hash, k)
      ensures counter.start == old(counter.start)
      ensures var s0, s1 := Stored(old(table.db), k), Stored(table.db, k);
        GroupSize(old(table.db), table.safe_hash, k) + (if s0.None? then 1 else 0) < SESSION_KEYS_LISTCNT ==>
          && OnPacket(false, s0, p, Nth(old(counter.start), old(counter.taken)), s1, sent,
               counter.taken != old(counter.taken))
          && (!Discarded(p) && s0.Some? ==> s1.Some? && UpAfter(s0.value, p.state, s1.value))
      ensures |sent| <= 1 && forall q :: q in sent ==> p.poll && !q.poll && q.final && q.your_discr == p.my_discr
      ensures var s0 := Stored(old(table.db), k);
        p.poll && !Discarded(p) && s0.Some? && s0.value.session_state != AdminDown ==> |sent| == 1
    {
      hide TableOk;
      hide Stored;
      hide GroupSize;
      hide OnlySession;
      NoOther(table.db, table.safe_hash, k);
      LawC(Stored(table.db, k), GroupSize(table.db, table.safe_hash, k), p, counter.start, counter.taken);
      hide RecvC;
      hide StoredAfter;
      hide OnPacket;
      hide UpAfter;
      hide Discarded;
      sent := Receive(k, p);
    }

    /** The checks, and what is behind them. */
    method Receive(k: SessKey, p: Packet) returns (sent: seq<Packet>)
      requires Valid()
      modifies table, counter
      ensures Valid()
      ensures var stored, size := Stored(old(table.db), k), GroupSize(old(table.db), table.safe_hash, k);
        var f := RecvC(stored, p, Nth(old(counter.start), old(counter.taken)));
        Stored(table.db, k) == StoredAfter(stored, size, p, f)
        && sent == (if Refused(stored, size) then [] else f.sent)
        && counter.taken == old(counter.taken) + (if f.allocates && !Refused(stored, size) then 1 else 0)
      ensures OnlySession(old(table.db), table.db, table.safe_hash, k)
      ensures counter.start == old(counter.start)
    {
      hide TableOk;
      hide Stored;
      hide GroupSize;
      hide OnlySession;
      NoOther(table.db, table.safe_hash, k);
      sent := [];
      if p.len != BFD_MINPKTLEN || p.multipoint || p.vers != BFD_VERSION || p.auth
         || p.my_discr == 0 || p.detect_mult == 0 {
        return;
      }
      if p.your_discr == 0 && !(p.state == Down || p.state == AdminDown) { return; }
      sent := Select(k, p);
    }

    /** The selection of the session, for a packet that passed the checks. */
    method Select(k: SessKey, p: Packet) returns (sent: seq<Packet>)
      requires Valid() && Accepted(p)
      modifies table, counter
      ensures Valid()
      ensures var stored, size := Stored(old(table.db), k), GroupSize(old(table.db), table.safe_hash, k);
        var f := RecvC(stored, p, Nth(old(counter.start), old(counter.taken)));
        Stored(table.db, k) == StoredAfter(stored, size, p, f)
        && sent == (if Refused(stored, size) then [] else f.sent)
        && counter.taken == old(counter.taken) + (if f.allocates && !Refused(stored, size) then 1 else 0)
      ensures OnlySession(old(table.db), table.db, table.safe_hash, k)
      ensures counter.start == old(counter.start)
    {
      hide TableOk;
      hide Stored;
      hide GroupSize;
      hide OnlySession;
      hide Accepted;
      hide Learn;
      hide Attach;
      hide WithStatus;
      hide NextC;
      ghost var db0 := table.db;
      NoOther(db0, table.safe_hash, k);
      sent := [];
      var found := table.Find(k);
      if p.your_discr != 0 && found.None? {
        var sess := FRESH.(remote_discr := p.my_discr, local_discr := p.your_discr, session_state := Down);
        Keep(k, sess);
        sent := Transmit(sess);
        return;
      }
      if found.None? {
        if p.state == Down {
          CreatedIsFresh(p, Nth(counter.start, counter.taken));
          Keep(k, FRESH);
          GrownBy(db0, table.db, table.safe_hash, k);
        }
        found := table.Find(k);
        if found.None? { return; }
      }
      ghost var db1 := table.db;
      sent := Process(k, p, found.value);
      OnlyOnce(db0, db1, table.db, table.safe_hash, k);
    }

    /** insert_session, as far as sessions and sizes of groups tell. */
    method Keep(k: SessKey, s: Session)
      requires Valid()
      modifies table
      ensures Valid() && OnlySession(old(table.db), table.db, table.safe_hash, k)
      ensures Stored(table.db, k) ==
        if GroupSize(old(table.db), table.safe_hash, k) < SESSION_KEYS_LISTCNT then Some(s)
        else Stored(old(table.db), k)
    {
      hide TableOk;
      hide Stored;
      hide Keys;
      var _ := table.Insert(k, s);
    }

    /** The part of recv_bfd_event behind the selection of the session. */
    method Process(k: SessKey, p: Packet, stored: Session) returns (sent: seq<Packet>)
      requires Valid() && Accepted(p) && Stored(table.db, k) == Some(stored)
      modifies table, counter
      ensures Valid()
      ensures var f := RecvC(Some(stored), p, Nth(old(counter.start), old(counter.taken)));
        sent == f.sent && counter.taken == old(counter.taken) + (if f.allocates then 1 else 0)
        && Stored(table.db, k) == if GroupSize(old(table.db), table.safe_hash, k) < SESSION_KEYS_LISTCNT then f.session
        else Some(stored)
      ensures OnlySession(old(table.db), table.db, table.safe_hash, k)
      ensures counter.start == old(counter.start)
    {
      hide Learn;
      hide Attach;
      hide TableOk;
      hide Stored;
      hide GroupSize;
      hide OnlySession;
      NoOther(table.db, table.safe_hash, k);
      sent := [];
      var sess := Meet(counter, stored, p);
      if sess.session_state == AdminDown { return; }
      sess := TransitionC(sess, p.state);
      if p.poll {
        sess := sess.(pollbit_on := true);
        sent := Transmit(sess);
      }
      Keep(k, sess);
    }

    /** send_bfd_event: what goes out at one transmission time, when `delivers` says for which sessions the
        send itself succeeds: a send that fails ends the iteration. */
    method SendBfdEvent(delivers: Session -> bool) returns (sent: seq<Packet>, visited: seq<SessKey>)
      requires Valid()
      ensures Walked(table.db, Attempt(delivers), visited, Order(table.db, SESSION_KEYS_MAX))
      ensures sent == AllSent(table.db, delivers, visited)
      ensures forall q :: q in sent ==> exists k :: k in visited && SaidBy(table.db, k, q)
      ensures forall k :: k in visited && Speaks(table.db, k, delivers) ==>
        exists q :: q in sent && SaidBy(table.db, k, q)
      ensures (forall s :: delivers(s)) ==> visited == Order(table.db, SESSION_KEYS_MAX)
    {
      hide TableOk;
      hide Order;
      hide Walked;
      hide Stored;
      visited := table.Iterate(Attempt(delivers));
      if forall s :: delivers(s) {
        NoFailure(table.db, Attempt(delivers), visited, Order(table.db, SESSION_KEYS_MAX));
      }
      sent := [];
      for i := 0 to |visited|
        invariant sent == AllSent(table.db, delivers, visited[..i])
      {
        assert visited[..i + 1][..i] == visited[..i];
        var s := table.Find(visited[i]);
        if s.Some? && delivers(s.value) {
          sent := sent + Transmit(s.value);
        }
      }
      assert visited[..|visited|] == visited;
      AllSentTells(table.db, delivers, visited);
    }
  }

  /** The packet tells of the session of `k`, which is attached. */
  ghost predicate SaidBy(db: Db, k: SessKey, q: Packet) {
    Stored(db, k).Some? && Stored(db, k).value.attached && Tells(q, Stored(db, k).value)
  }

  /** The session of `k` is attached and can be sent for, and it knows the other side or is Down. */
  ghost predicate Speaks(db: Db, k: SessKey, delivers: Session -> bool) {
    && Stored(db, k).Some? && Stored(db, k).value.attached && delivers(Stored(db, k).value)
    && (Stored(db, k).value.remote_discr != 0 || Stored(db, k).value.session_state == Down)
  }

  /** Everything sent tells of one of the sessions, and every session that speaks is told of. */
  lemma {:induction false} AllSentTells(db: Db, delivers: Session -> bool, ks: seq<SessKey>)
    ensures forall q :: q in AllSent(db, delivers, ks) ==> exists k :: k in ks && SaidBy(db, k, q)
    ensures forall k :: k in ks && Speaks(db, k, delivers) ==>
      exists q :: q in AllSent(db, delivers, ks) && SaidBy(db, k, q)
  {
    if ks != [] {
      var n := |ks| - 1;
      AllSentTells(db, delivers, ks[..n]);
      if Stored(db, ks[n]).Some? {
        TransmitTells(Stored(db, ks[n]).value);
      }
      hide Transmit;
      hide Tells;
      hide Stored;
      forall q | q in AllSent(db, delivers, ks) ensures exists k :: k in ks && SaidBy(db, k, q) {
        if q !in AllSent(db, delivers, ks[..n]) {
          assert ks[n] in ks && SaidBy(db, ks[n], q);
        }
      }
      forall k | k in ks && Speaks(db, k, delivers)
        ensures exists q :: q in AllSent(db, delivers, ks) && SaidBy(db, k, q)
      {
        if k == ks[n] {
          var q := Transmit(Stored(db, k).value)[0];
          assert q in AllSent(db, delivers, ks) && SaidBy(db, k, q);
        } else {
          assert k in ks[..n];
        }
      }
    }
  }

  /** iterate_on_session: it fails if there is something to send and that cannot be sent. */
  function Attempt(delivers: Session -> bool): (itr: Session -> bool) {
    s => Transmit(s) == [] || delivers(s)
  }

  /** What the sessions `ks` send, in this order. */
  ghost function AllSent(db: Db, delivers: Session -> bool, ks: seq<SessKey>): (sent: seq<Packet>) {
    if ks == [] then []
    else
      var s := Stored(db, ks[|ks| - 1]);
      AllSent(db, delivers, ks[..|ks| - 1]) + if s.Some? && delivers(s.value) then Transmit(s.value) else []
  }

  lemma NoFailure(db: Db, itr: Session -> bool, visited: seq<SessKey>, order: seq<SessKey>)
    requires Walked(db, itr, visited, order) && forall s :: itr(s)
    ensures visited == order
  {
  }

  lemma CreatedIsFresh(p: Packet, d: nat)
    requires Accepted(p) && p.your_discr == 0 && p.state == Down
    ensures RecvC(None, p, d) == RecvC(Some(FRESH), p, d) && RecvCpp(None, p, d) == RecvCpp(Some(FRESH), p, d)
  {
  }

  /** The nested branches of the C daemon's state machine. */
  method TransitionC(s: Session, received: State) returns (sess: Session)
    requires s.session_state != AdminDown && s.remote_session_state == received
    ensures sess == WithStatus(s, NextC(StatusOf(s), received))
  {
    sess := s;
    if sess.remote_session_state == AdminDown {
      if sess.session_state != Down {
        sess := sess.(local_diag := BFDDIAG_NEIGHBORSAIDDOWN, session_state := Down);
      }
    } else if sess.session_state == Down {
      if sess.remote_session_state == Down {
        sess := sess.(session_state := Init);
      } else if sess.remote_session_state == Init {
        sess := sess.(session_state := Up);
      }
    } else if sess.session_state == Init {
      if sess.remote_session_state == Init || sess.remote_session_state == Up {
        sess := sess.(session_state := Up);
      } else {
        sess := sess.(session_state := Down);
      }
    } else if sess.remote_session_state == Down {
      sess := sess.(local_diag := BFDDIAG_NEIGHBORSAIDDOWN, session_state := Down);
    }
  }

  /** The same for the C++ daemon, which stays in Init. */
  method TransitionCpp(s: Session, received: State) returns (sess: Session)
    requires s.session_state != AdminDown && s.remote_session_state == received
    ensures sess == WithStatus(s, NextRfc(StatusOf(s), received))
  {
    sess := s;
    if sess.remote_session_state == AdminDown {
      if sess.session_state != Down {
        sess := sess.(local_diag := BFDDIAG_NEIGHBORSAIDDOWN, session_state := Down);
      }
    } else if sess.session_state == Down {
      if sess.remote_session_state == Down {
        sess := sess.(session_state := Init);
      } else if sess.remote_session_state == Init {
        sess := sess.(session_state := Up);
      }
    } else if sess.session_state == Init {
      if sess.remote_session_state == Init || sess.remote_session_state == Up {
        sess := sess.(session_state := Up);
      }
    } else if sess.remote_session_state == Down {
      sess := sess.(local_diag := BFDDIAG_NEIGHBORSAIDDOWN, session_state := Down);
    }
  }

  class ManagerCpp {
    var bfd_sessions: map<SessKey, Session>
    const counter: Counter

    ghost function Lookup(k: SessKey): (r: Option<Session>)
      reads this
    {
      if k in bfd_sessions then Some(bfd_sessions[k]) else None
    }

    constructor ()
      ensures bfd_sessions == map[] && counter.Valid() && fresh(counter)
    {
      bfd_sessions := map[];
      counter := new Counter();
    }

    /** The checks of the server, and on_bfd_recieved. */
    method OnBfdReceived(k: SessKey, p: Packet) returns (sent: seq<Packet>)
      requires counter.Valid()
      modifies this, counter
      ensures counter.Valid() && counter.start == old(counter.start)
      ensures var f := RecvCpp(old(Lookup(k)), p, Nth(old(counter.start), old(counter.taken)));
        bfd_sessions == (if f.session.Some? then old(bfd_sessions)[k := f.session.value] else old(bfd_sessions))
        && sent == f.sent && counter.taken == old(counter.taken) + if f.allocates then 1 else 0
      ensures OnPacket(true, old(Lookup(k)), p, Nth(old(counter.start), old(counter.taken)), Lookup(k), sent,
        counter.taken != old(counter.taken))
      ensures !Discarded(p) && old(Lookup(k)).Some? ==>
        Lookup(k).Some? && UpAfter(old(Lookup(k)).value, p.state, Lookup(k).value)
    {
      LawCpp(Lookup(k), p, counter.start, counter.taken);
      hide RecvCpp;
      hide OnPacket;
      hide UpAfter;
      hide Discarded;
      sent := Receive(k, p);
    }

    /** The checks, and what is behind them. */
    method Receive(k: SessKey, p: Packet) returns (sent: seq<Packet>)
      requires counter.Valid()
      modifies this, counter
      ensures counter.Valid() && counter.start == old(counter.start)
      ensures var f := RecvCpp(old(Lookup(k)), p, Nth(old(counter.start), old(counter.taken)));
        (f.session.None? ==> k !in old(bfd_sessions))
        && bfd_sessions == (if f.session.Some? then old(bfd_sessions)[k := f.session.value] else old(bfd_sessions))
        && sent == f.sent && counter.taken == old(counter.taken) + if f.allocates then 1 else 0
    {
      sent := [];
      if p.len != BFD_MINPKTLEN || p.multipoint || p.vers != BFD_VERSION || p.auth
         || p.my_discr == 0 || p.detect_mult == 0
         || (p.your_discr == 0 && !(p.state == Down || p.state == AdminDown)) {
        Unchanged(bfd_sessions, k);
        return;
      }
      if p.your_discr != 0 && k !in bfd_sessions {
        var psess := FRESH.(remote_discr := p.my_discr, local_discr := p.your_discr, session_state := Down);
        bfd_sessions := bfd_sessions[k := psess];
        sent := Transmit(psess);
        return;
      }
      if k !in bfd_sessions {
        if p.state == Down {
          CreatedIsFresh(p, Nth(counter.start, counter.taken));
          bfd_sessions := bfd_sessions[k := FRESH];
        }
        if k !in bfd_sessions { return; }
      }
      sent := Process(k, p);
    }

    /** The part of on_bfd_recieved behind the selection of the session. */
    method Process(k: SessKey, p: Packet) returns (sent: seq<Packet>)
      requires counter.Valid() && Accepted(p) && k in bfd_sessions
      modifies this, counter
      ensures counter.Valid() && counter.start == old(counter.start)
      ensures var f := RecvCpp(Some(old(bfd_sessions)[k]), p, Nth(old(counter.start), old(counter.taken)));
        f.session.Some? && bfd_sessions == old(bfd_sessions)[k := f.session.value]
        && sent == f.sent && counter.taken == old(counter.taken) + if f.allocates then 1 else 0
    {
      hide Learn;
      hide Attach;
      sent := [];
      var psess := Meet(counter, bfd_sessions[k], p);
      bfd_sessions := bfd_sessions[k := psess];
      if psess.session_state == AdminDown { return; }
      psess := TransitionCpp(psess, p.state);
      if p.poll {
        psess := psess.(pollbit_on := true);
        sent := Transmit(psess);
      }
      bfd_sessions := bfd_sessions[k := psess];
    }
  }

  lemma Unchanged(m: map<SessKey, Session>, k: SessKey)
    ensures k in m ==> m[k := m[k]] == m
  {
  }

  /** A packet's effect is stored exactly when the group, with the session that the packet creates, has
      fewer than 128 sessions, or when there is no effect. */
  lemma StoredIff(stored: Option<Session>, size: nat, p: Packet, d: nat)
    ensures var f := RecvC(stored, p, d);
      var created := if stored.None? && Accepted(p) && p.your_discr == 0 && p.state == Down then 1 else 0;
      StoredAfter(stored, size, p, f) == f.session <==> size + created < SESSION_KEYS_LISTCNT || f.session == stored
  {
  }

  /** Packets that arrive one after the other, each from an address. */
  method RecvAll(daemon: DaemonC, arrivals: seq<(SessKey, Packet)>)
    requires daemon.Valid()
    modifies daemon.table, daemon.counter
    ensures daemon.Valid()
    ensures forall k :: GroupSize(old(daemon.table.db), daemon.table.safe_hash, k) >= SESSION_KEYS_LISTCNT ==>
      Stored(daemon.table.db, k) == Stored(old(daemon.table.db), k)
  {
    hide TableOk;
    hide Stored;
    hide GroupSize;
    hide RecvC;
    for i := 0 to |arrivals|
      invariant daemon.Valid()
      invariant forall k :: GroupSize(old(daemon.table.db), daemon.table.safe_hash, k) >= SESSION_KEYS_LISTCNT ==>
        && Stored(daemon.table.db, k) == Stored(old(daemon.table.db), k)
        && GroupSize(daemon.table.db, daemon.table.safe_hash, k) >= SESSION_KEYS_LISTCNT
    {
      var _ := daemon.RecvBfdEvent(arrivals[i].0, arrivals[i].1);
    }
  }

  /** A full group is reached: 128 addresses of one hash, each with a first packet, fill it, and the last of
      these sessions is left as it was created. */
  method FillGroup(p: Packet) returns (daemon: DaemonC)
    requires Accepted(p) && p.your_discr == 0 && p.state == Down
    ensures daemon.Valid() && fresh(daemon) && fresh(daemon.table) && fresh(daemon.counter)
    ensures GroupSize(daemon.table.db, daemon.table.safe_hash, SessKey(0, 0)) == SESSION_KEYS_LISTCNT
    ensures Stored(daemon.table.db, SessKey(SESSION_KEYS_LISTCNT - 1, 0)) == Some(FRESH)
    ensures forall a :: 0 <= a < SESSION_KEYS_LISTCNT - 1 ==> InInit(daemon.table.db, SessKey(a, 0))
  {
    daemon := new DaemonC(_ => 0);
    EmptyGroup(daemon.table.db, daemon.table.safe_hash, SessKey(0, 0));
    hide TableOk;
    hide Stored;
    hide GroupSize;
    hide Accepted;
    for a := 0 to SESSION_KEYS_LISTCNT
      invariant daemon.Valid() && fresh(daemon) && fresh(daemon.table) && fresh(daemon.counter)
      invariant forall k :: GroupSize(daemon.table.db, daemon.table.safe_hash, k) == a
      invariant forall b :: a <= b < SESSION_KEYS_LISTCNT ==> Stored(daemon.table.db, SessKey(b, 0)) == None
      invariant forall b :: 0 <= b < a && b < SESSION_KEYS_LISTCNT - 1 ==> InInit(daemon.table.db, SessKey(b, 0))
      invariant a == SESSION_KEYS_LISTCNT ==> Stored(daemon.table.db, SessKey(a - 1, 0)) == Some(FRESH)
    {
      FirstContact(daemon, SessKey(a, 0), p);
    }
  }

  ghost predicate InInit(db: Db, k: SessKey) {
    Stored(db, k).Some? && Stored(db, k).value.session_state == Init
  }

  method FirstContact(daemon: DaemonC, k: SessKey, p: Packet)
    requires daemon.Valid() && Accepted(p) && p.your_discr == 0 && p.state == Down
    requires Stored(daemon.table.db, k) == None
    requires GroupSize(daemon.table.db, daemon.table.safe_hash, k) < SESSION_KEYS_LISTCNT
    modifies daemon.table, daemon.counter
    ensures daemon.Valid() && OnlySession(old(daemon.table.db), daemon.table.db, daemon.table.safe_hash, k)
    ensures if GroupSize(old(daemon.table.db), daemon.table.safe_hash, k) + 1 < SESSION_KEYS_LISTCNT
      then InInit(daemon.table.db, k) else Stored(daemon.table.db, k) == Some(FRESH)
  {
    hide TableOk;
    hide Stored;
    hide GroupSize;
    hide OnlySession;
    CreatedInInit(p, Nth(daemon.counter.start, daemon.counter.taken));
    hide RecvC;
    hide Accepted;
    var _ := daemon.RecvBfdEvent(k, p);
  }

  lemma CreatedInInit(p: Packet, d: nat)
    requires Accepted(p) && p.your_discr == 0 && p.state == Down
    ensures RecvC(None, p, d).session.Some? && RecvC(None, p, d).session.value.session_state == Init
  {
  }

  lemma EmptyGroup(db: Db, hash: SessKey -> nat, k: SessKey)
    requires TableOk(db, hash) && forall j :: Stored(db, j) == None
    ensures GroupSize(db, hash, k) == 0
  {
    var n := hash(k) % SESSION_KEYS_MAX;
    assert GroupOk(db, hash, n);
    assert Keys(db, n) != [] ==> Stored(db, db[ListKey(n)].keys[0]).Some?;
  }

}
