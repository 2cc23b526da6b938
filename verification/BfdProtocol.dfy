/** BFD packets and sessions, and what one endpoint makes of one packet: the C daemon
    (bfdd_event.c), the C++ daemon (bfdd_cpp_session_manager.hpp), and section 6.8.6 of RFC 5880. */
module BfdProtocol {
  import opened Common

  datatype State = AdminDown | Down | Init | Up

  const BFD_VERSION := 1
  const BFD_MINPKTLEN := 24
  const BFDDFLT_DETECTMULT := 3
  const BFDDFLT_REQUIREDMINRX := 1000000
  const BFD_NODIAG := 0
  const BFDDIAG_DETECTTIMEEXPIRED := 1
  const BFDDIAG_NEIGHBORSAIDDOWN := 3

  datatype Packet = Packet(len: nat, vers: nat, diag: nat, state: State, poll: bool, final: bool, auth: bool,
                           demand: bool, multipoint: bool,
                           detect_mult: nat, my_discr: nat, your_discr: nat, min_rx_int: nat)

  /** `attached` is the C daemon's flag and stands for the C++ daemon's connection. */
  datatype Session = Session(session_state: State, remote_session_state: State, local_discr: nat, remote_discr: nat,
                             local_diag: nat,
                             remote_demand_mode: bool, remote_min_rx_interval: nat, must_terminate: bool,
                             pollbit_on: bool, attached: bool)

  const FRESH := Session(Down, Down, 0, 0, BFD_NODIAG, false, 0, false, false, false)

  // ---- the state machines ----

  /** A state and the diagnostic code. */
  datatype Status = Status(state: State, diag: nat)

  /** Section 6.8.6 of RFC 5880, and the C++ daemon. */
  function NextRfc(s: Status, received: State): (r: Status) {
    match s.state
    case AdminDown => s
    case Down => (match received case Down => s.(state := Init) case Init => s.(state := Up) case _ => s)
    case Init =>
      if received == AdminDown then Status(Down, BFDDIAG_NEIGHBORSAIDDOWN)
      else if received == Init || received == Up then s.(state := Up)
      else s
    case Up => if received == AdminDown || received == Down then Status(Down, BFDDIAG_NEIGHBORSAIDDOWN) else s
  }

  /** The C daemon. */
  function NextC(s: Status, received: State): (r: Status) {
    match s.state
    case AdminDown => s
    case Down => (match received case Down => s.(state := Init) case Init => s.(state := Up) case _ => s)
    case Init =>
      if received == AdminDown then Status(Down, BFDDIAG_NEIGHBORSAIDDOWN)
      else if received == Init || received == Up then s.(state := Up)
      else s.(state := Down)
    case Up => if received == AdminDown || received == Down then Status(Down, BFDDIAG_NEIGHBORSAIDDOWN) else s
  }

  /** The C daemon departs from the RFC in exactly one place. */
  lemma Deviation(s: Status, received: State)
    ensures NextC(s, received) == NextRfc(s, received) <==> !(s.state == Init && received == Down)
  {
  }

  /** The status after a sequence of packets. */
  function AfterAll(next: (Status, State) -> Status, s: Status, received: seq<State>): (t: Status) {
    if received == [] then s
    else next(AfterAll(next, s, received[..|received| - 1]), received[|received| - 1])
  }

  /** Repeated Down packets, as a restarted neighbour sends them: by the RFC the session waits in
      Init, the C daemon goes back and forth between Init and Down. */
  lemma {:induction false} DownRepeated(n: nat, diag: nat)
    ensures var downs := seq(n, _ => Down);
      AfterAll(NextRfc, Status(Down, diag), downs) == Status(if n == 0 then Down else Init, diag)
      && AfterAll(NextC, Status(Down, diag), downs) == Status(if n % 2 == 0 then Down else Init, diag)
  {
    if n > 0 {
      DownRepeated(n - 1, diag);
      assert seq(n, _ => Down)[..n - 1] == seq(n - 1, _ => Down);
    }
  }

  /** What both state machines have in common: Up is entered only on hearing Init or Up, and left only to Down
      with code 3; no other code is ever set, and AdminDown is not entered. */
  ghost predicate Cautious(next: (Status, State) -> Status) {
    forall s, received :: CautiousStep(s, received, next(s, received))
  }

  predicate CautiousStep(s: Status, received: State, t: Status) {
    && (s.state == AdminDown <==> t.state == AdminDown)
    && (t.state == Up ==> s.state == Up || received == Init || received == Up)
    && (s.state == Up ==> t.state == Up || t == Status(Down, BFDDIAG_NEIGHBORSAIDDOWN))
    && (t.diag == s.diag || t.diag == BFDDIAG_NEIGHBORSAIDDOWN)
  }

  lemma BothCautious()
    ensures Cautious(NextC) && Cautious(NextRfc)
  {
    forall s, received ensures CautiousStep(s, received, NextC(s, received)) {}
    forall s, received ensures CautiousStep(s, received, NextRfc(s, received)) {}
  }

  // ---- validation ----

  predicate Accepted(p: Packet) {
    p.len == BFD_MINPKTLEN && !p.multipoint && p.vers == BFD_VERSION && !p.auth && p.my_discr != 0 && p.detect_mult != 0
    && !(p.your_discr == 0 && !(p.state == Down || p.state == AdminDown))
  }

  // ---- transmission ----

  function PacketOf(s: Session): (r: Packet) {
    Packet(BFD_MINPKTLEN, BFD_VERSION, s.local_diag, if s.local_discr != 0 then s.session_state else Down,
      false, s.pollbit_on, false, false, false,
      BFDDFLT_DETECTMULT, s.local_discr, s.remote_discr, BFDDFLT_REQUIREDMINRX)
  }

  /** iterate_on_session and transmit_unsafe: nothing is sent before the session is attached, and
      none but the state Down without both discriminators. */
  function Transmit(s: Session): (r: seq<Packet>) {
    var p := PacketOf(s);
    if !s.attached || ((p.your_discr == 0 || p.my_discr == 0) && p.state != Down) then [] else [p]
  }

  /** What a packet says of the session that sends it: its code, its own discriminator and the one learned; no
      question, and an answer once the session was asked. Without a discriminator of its own it says Down. */
  ghost predicate Tells(q: Packet, s: Session) {
    && !q.poll && (q.final <==> s.pollbit_on) && !q.auth && !q.demand && !q.multipoint
    && q.vers == 1 && q.len == 24 && q.detect_mult == 3
    && q.diag == s.local_diag && q.my_discr == s.local_discr && q.your_discr == s.remote_discr
    && (s.local_discr != 0 ==> q.state == s.session_state) && (s.local_discr == 0 ==> q.state == Down)
  }

  /** A session is silent if it is not attached, or if it does not know the other side and has more to say than
      Down; otherwise it sends one packet. */
  lemma TransmitTells(s: Session)
    ensures Transmit(s) == [] <==>
      !s.attached || (s.remote_discr == 0 && s.local_discr != 0 && s.session_state != Down)
    ensures Transmit(s) != [] ==> |Transmit(s)| == 1 && Tells(Transmit(s)[0], s)
  {
  }

  // ---- reception ----

  /** What a packet leads to: the stored session, the packets sent at once, whether a discriminator was
      allocated, and whether the packet reached the state machine. */
  datatype Effect = Effect(session: Option<Session>, sent: seq<Packet>, allocates: bool, heard: bool)

  function Learn(s: Session, p: Packet): (r: Session) {
    s.(remote_session_state := p.state, remote_demand_mode := p.demand, remote_discr := p.my_discr,
       remote_min_rx_interval := p.min_rx_int, must_terminate := s.must_terminate || p.final)
  }

  function WithStatus(s: Session, st: Status): (r: Session) {
    s.(session_state := st.state, local_diag := st.diag)
  }

  function StatusOf(s: Session): (r: Status) {
    Status(s.session_state, s.local_diag)
  }

  function Attach(s: Session, fresh_discr: nat): (r: Session) {
    if s.attached then s else s.(local_discr := fresh_discr, attached := true)
  }

  /** What one packet means for the session stored for the sender's address. The daemons differ in the state
      machine, and in whether a session that is AdminDown keeps what the packet says of the sender. */
  function Recv(next: (Status, State) -> Status, keeps: bool, stored: Option<Session>, p: Packet, fresh_discr: nat):
    (f: Effect)
  {
    if !Accepted(p) then Effect(stored, [], false, false)
    else if p.your_discr != 0 && stored.None? then
      var s := FRESH.(remote_discr := p.my_discr, local_discr := p.your_discr);
      Effect(Some(s), Transmit(s), false, false)
    else if stored.None? && p.state != Down then Effect(None, [], false, false)
    else
      var s := if stored.None? then FRESH else stored.value;
      var t := Learn(Attach(s, fresh_discr), p);
      if t.session_state == AdminDown then Effect(Some(if keeps then t else s), [], !s.attached, false)
      else
        var u := WithStatus(t, next(StatusOf(t), p.state));
        if p.poll then Effect(Some(u.(pollbit_on := true)), Transmit(u.(pollbit_on := true)), !s.attached, true)
        else Effect(Some(u), [], !s.attached, true)
  }

  /** recv_bfd_event. */
  function RecvC(stored: Option<Session>, p: Packet, fresh_discr: nat): (f: Effect) {
    Recv(NextC, false, stored, p, fresh_discr)
  }

  /** on_bfd_recieved behind the same checks. */
  function RecvCpp(stored: Option<Session>, p: Packet, fresh_discr: nat): (f: Effect) {
    Recv(NextRfc, true, stored, p, fresh_discr)
  }

  // ---- what a daemon promises, said of sessions and packets alone ----

  /** The packets that go no further than the checks. */
  predicate Discarded(p: Packet) {
    || p.len != 24 || p.vers != 1 || p.multipoint || p.auth || p.my_discr == 0 || p.detect_mult == 0
    || (p.your_discr == 0 && (p.state == Init || p.state == Up))
  }

  lemma DiscardedIff(p: Packet)
    ensures Discarded(p) <==> !Accepted(p)
  {
  }

  /** The state `t` and the code of a session in state `s` that heard `heard`. Where `waits` holds a session in Init
      stays there on hearing Down, otherwise it falls back to Down. */
  ghost predicate Moves(waits: bool, s: Session, heard: State, t: Session) {
    && (t.session_state == Up <==>
        || (s.session_state == Up && (heard == Init || heard == Up))
        || (s.session_state == Down && heard == Init)
        || (s.session_state == Init && (heard == Init || heard == Up)))
    && (t.session_state == Init <==>
        heard == Down && (s.session_state == Down || (waits && s.session_state == Init)))
    && (t.session_state == AdminDown <==> s.session_state == AdminDown)
    && t.local_diag ==
       if (s.session_state == Up && (heard == Down || heard == AdminDown))
          || (s.session_state == Init && heard == AdminDown)
       then 3 else s.local_diag
  }

  /** What a session knows of the other side after a packet, and what it keeps. */
  ghost predicate Learns(s: Session, p: Packet, fresh_discr: nat, t: Session) {
    && t.remote_session_state == p.state && t.remote_discr == p.my_discr
    && t.remote_demand_mode == p.demand && t.remote_min_rx_interval == p.min_rx_int
    && (t.must_terminate <==> s.must_terminate || p.final)
    && t.attached && t.local_discr == if s.attached then s.local_discr else fresh_discr
  }

  /** A packet that passed the checks, for a session that is not AdminDown. */
  ghost predicate Reacts(waits: bool, s: Session, p: Packet, fresh_discr: nat, t: Session) {
    && Moves(waits, s, p.state, t) && Learns(s, p, fresh_discr, t)
    && (t.pollbit_on <==> s.pollbit_on || p.poll)
  }

  /** A session that is AdminDown stays so: the C++ daemon, which waits in Init, learns from the packet all the same,
      and the C daemon keeps nothing of it. */
  ghost predicate StaysAdminDown(waits: bool, s: Session, p: Packet, fresh_discr: nat, t: Session) {
    && t.session_state == AdminDown && t.local_diag == s.local_diag && t.pollbit_on == s.pollbit_on
    && if waits then Learns(s, p, fresh_discr, t) else t == s
  }

  /** The answer: one packet that says what the session has become, if and only if the packet asked. */
  ghost predicate Answers(p: Packet, t: Session, sent: seq<Packet>) {
    && (sent != [] <==> p.poll)
    && (sent != [] ==> |sent| == 1 && Tells(sent[0], t) && sent[0].final && sent[0].your_discr == p.my_discr)
  }

  /** What one packet leads to, for every session that may be stored, and when none is: nothing at all if it is
      discarded; a session in Down without an answer, if it is for a session that is unknown here; the reaction of a
      new session in Down, if it is a first packet; and nothing for any other packet from an unknown sender. */
  ghost predicate OnPacket(waits: bool, stored: Option<Session>, p: Packet, fresh_discr: nat, session: Option<Session>,
                           sent: seq<Packet>, allocates: bool) {
    if Discarded(p) || (stored.None? && p.your_discr == 0 && p.state != Down) then
      session == stored && sent == [] && !allocates
    else if stored.None? && p.your_discr != 0 then
      && session == Some(FRESH.(local_discr := p.your_discr, remote_discr := p.my_discr))
      && sent == [] && !allocates
    else
      var s := if stored.None? then FRESH else stored.value;
      && session.Some? && (allocates <==> !s.attached)
      && (s.session_state == AdminDown ==> sent == [] && StaysAdminDown(waits, s, p, fresh_discr, session.value))
      && (s.session_state != AdminDown ==>
          Reacts(waits, s, p, fresh_discr, session.value) && Answers(p, session.value, sent))
  }

  /** On hearing Down or AdminDown a session is not Up, and one that was is in Down with code 3. */
  lemma DownMoves(waits: bool, stored: Option<Session>, p: Packet, fresh_discr: nat, session: Option<Session>,
                  sent: seq<Packet>, allocates: bool)
    requires OnPacket(waits, stored, p, fresh_discr, session, sent, allocates) && !Discarded(p)
    requires p.state == Down || p.state == AdminDown
    ensures session.Some? ==> session.value.session_state != Up
    ensures stored.Some? && stored.value.session_state == Up ==>
      session.Some? && session.value.session_state == Down && session.value.local_diag == BFDDIAG_NEIGHBORSAIDDOWN
  {
    hide Discarded;
    hide Answers;
    hide Learns;
  }

  lemma OnPacketC(stored: Option<Session>, p: Packet, fresh_discr: nat)
    requires fresh_discr != 0
    ensures var f := RecvC(stored, p, fresh_discr);
      OnPacket(false, stored, p, fresh_discr, f.session, f.sent, f.allocates)
  {
    DiscardedIff(p);
    assert !Discarded(p) ==> p.my_discr != 0;
    hide Accepted;
    hide Discarded;
  }

  lemma OnPacketCpp(stored: Option<Session>, p: Packet, fresh_discr: nat)
    requires fresh_discr != 0
    ensures var f := RecvCpp(stored, p, fresh_discr);
      OnPacket(true, stored, p, fresh_discr, f.session, f.sent, f.allocates)
  {
    DiscardedIff(p);
    assert !Discarded(p) ==> p.my_discr != 0;
    hide Accepted;
    hide Discarded;
  }

  /** The neighbour that follows RFC 5880 in the Active role: a session with a discriminator from the
      start, selected by that discriminator once the sender knows it. */
  function RecvRfc(s: Session, p: Packet): (r: Effect) {
    if !Accepted(p) || (p.your_discr != 0 && p.your_discr != s.local_discr) then Effect(Some(s), [], false, false)
    else
      var t := Learn(s, p);
      if t.session_state == AdminDown then Effect(Some(t), [], false, false)
      else
        var u := WithStatus(t, NextRfc(StatusOf(t), p.state));
        Effect(Some(u), if p.poll then [PacketOf(u).(final := true)] else [], false, true)
  }

  /** At its timer an attached session of the C++ daemon says one thing while the other side is alive, has not ended the
      exchange, and is willing to hear at all. */
  lemma TimerTells(s: Session, alive: bool)
    ensures |TimerCpp(s, alive)| == 1 <==>
      s.attached && alive && !s.must_terminate && s.remote_min_rx_interval > 0 && s.remote_discr > 0
    ensures TimerCpp(s, alive) != [] ==> |TimerCpp(s, alive)| == 1 && Tells(TimerCpp(s, alive)[0], s)
  {
    TransmitTells(s);
    hide Transmit;
  }

  /** The C++ daemon's timer. */
  function TimerCpp(s: Session, alive: bool): (r: seq<Packet>) {
    if alive && !s.must_terminate && s.remote_discr != 0 && s.remote_min_rx_interval != 0 then Transmit(s) else []
  }
}
