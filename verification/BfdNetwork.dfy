/** Two endpoints that talk over a network that loses, repeats, delays and reorders packets. */
module BfdNetwork {
  import opened Common
  import opened BfdProtocol
  import opened Discriminators

  /** The C daemon, the C++ daemon, and a neighbour that follows RFC 5880 in the Active role. */
  datatype Kind = DaemonC | DaemonCpp | ActiveRfc

  /** One endpoint: its session with the other, its discriminator counter, the packets that reached its
      state machine, and whether it has ever been Up. */
  datatype Endpoint = Endpoint(kind: Kind, session: Option<Session>, counter: nat, heard: set<Packet>, everUp: bool) {
    function State(): (r: BfdProtocol.State) {
      if session.None? then Down else session.value.session_state
    }

    function Diag(): (r: nat) {
      if session.None? then BFD_NODIAG else session.value.local_diag
    }
  }

  /** ends[i] and the packets it has ever sent; any of those may be delivered at any time, any number of times. */
  datatype System = System(ends: seq<Endpoint>, nets: seq<set<Packet>>)

  predicate Paired(sys: System) {
    |sys.ends| == |sys.nets| == 2 && forall i :: 0 <= i < 2 ==> sys.ends[i].counter <= COUNTER_LIMIT
  }

  /** The Active neighbour starts with a session of its own discriminator. */
  function Initial(kinds: seq<Kind>, discrs: seq<nat>): (r: System)
    requires |kinds| == |discrs| == 2
  {
    System(seq(2, i requires 0 <= i < 2 =>
        Endpoint(kinds[i],
          if kinds[i] == ActiveRfc then Some(FRESH.(local_discr := discrs[i], attached := true)) else None,
          0, {}, false)),
      [{}, {}])
  }

  /** Packet `p` reaches endpoint `to`; endpoint `at` reaches its transmission time; the detection time of
      an endpoint runs out, which only the RFC's endpoint notices. */
  datatype Step = Deliver(to: nat, p: Packet) | Timer(at: nat, alive: bool) | Expire(at: nat)

  function Received(e: Endpoint, p: Packet): (r: Effect)
    requires e.counter <= COUNTER_LIMIT
  {
    match e.kind
    case DaemonC => RecvC(e.session, p, Htonl(e.counter + 1))
    case DaemonCpp => RecvCpp(e.session, p, Htonl(e.counter + 1))
    case ActiveRfc => if e.session.None? then Effect(None, [], false, false) else RecvRfc(e.session.value, p)
  }

  function AfterDelivery(e: Endpoint, p: Packet): (r: Endpoint)
    requires e.counter <= COUNTER_LIMIT
  {
    var f := Received(e, p);
    e.(session := f.session, counter := if f.allocates then Bump(e.counter) else e.counter,
       heard := if f.heard then e.heard + {p} else e.heard,
       everUp := e.everUp || (f.session.Some? && f.session.value.session_state == Up))
  }

  function SentAtTimer(e: Endpoint, alive: bool): (r: seq<Packet>) {
    if e.session.None? then []
    else match e.kind
      case DaemonC => Transmit(e.session.value)
      case DaemonCpp => TimerCpp(e.session.value, alive)
      case ActiveRfc => [PacketOf(e.session.value)]
  }

  /** The detection time runs out (section 6.8.4 of RFC 5880). */
  function AfterExpiry(e: Endpoint): (r: Endpoint) {
    if e.kind == ActiveRfc && e.session.Some?
       && (e.session.value.session_state == Init || e.session.value.session_state == Up)
    then e.(session := Some(e.session.value.(session_state := Down, local_diag := BFDDIAG_DETECTTIMEEXPIRED)))
    else e
  }

  function PacketSet(ps: seq<Packet>): (r: set<Packet>) {
    set p | p in ps
  }

  function Replace(sys: System, i: nat, e: Endpoint, sent: seq<Packet>): (r: System)
    requires Paired(sys) && i < 2
  {
    System(sys.ends[i := e], sys.nets[i := sys.nets[i] + PacketSet(sent)])
  }

  /** A step that is not possible changes nothing. */
  function Apply(sys: System, step: Step): (r: System)
    requires Paired(sys)
    ensures Paired(r)
  {
    match step
    case Deliver(to, p) =>
      if to < 2 && p in sys.nets[1 - to]
      then Replace(sys, to, AfterDelivery(sys.ends[to], p), Received(sys.ends[to], p).sent)
      else sys
    case Timer(at, alive) =>
      if at < 2 then Replace(sys, at, sys.ends[at], SentAtTimer(sys.ends[at], alive)) else sys
    case Expire(at) =>
      if at < 2 then Replace(sys, at, AfterExpiry(sys.ends[at]), []) else sys
  }

  function Run(sys: System, steps: seq<Step>): (r: System)
    requires Paired(sys)
    ensures Paired(r)
  {
    if steps == [] then sys else Apply(Run(sys, steps[..|steps| - 1]), steps[|steps| - 1])
  }

  // ---- what every run keeps ----

  predicate Advanced(s: State) {
    s == Init || s == Up
  }

  /** An endpoint is past Down only if it has heard the other, and for the daemons the diagnostic code of
      a session that was Up and no longer is is 3. */
  ghost predicate EndpointOk(e: Endpoint) {
    e.State() != AdminDown && (Advanced(e.State()) ==> e.heard != {})
    && (e.State() == Up ==> e.everUp)
    && (e.everUp && e.kind != ActiveRfc ==> e.State() == Up || e.Diag() == BFDDIAG_NEIGHBORSAIDDOWN)
    && (e.everUp ==> e.session.Some?)
  }

  /** What `peer` hears was sent, what was sent past Down tells of a packet heard, and Up means that the peer has
      heard. */
  ghost predicate LinkOk(e: Endpoint, net: set<Packet>, peer: Endpoint) {
    peer.heard <= net
    && (forall p :: p in net && Advanced(p.state) ==> e.heard != {})
    && (e.State() == Up ==> peer.heard != {})
  }

  ghost predicate SystemOk(sys: System) {
    Paired(sys)
    && EndpointOk(sys.ends[0]) && EndpointOk(sys.ends[1])
    && LinkOk(sys.ends[0], sys.nets[0], sys.ends[1]) && LinkOk(sys.ends[1], sys.nets[1], sys.ends[0])
  }

  function StateOf(session: Option<Session>): (r: State) {
    if session.None? then Down else session.value.session_state
  }

  /** What one packet may do to a session. */
  ghost predicate EffectOk(stored: Option<Session>, p: Packet, f: Effect) {
    (stored.Some? ==> f.session.Some?) && (StateOf(stored) != AdminDown ==> StateOf(f.session) != AdminDown)
    && (Advanced(StateOf(f.session)) ==> Advanced(StateOf(stored)) || f.heard)
    && (StateOf(f.session) == Up ==> StateOf(stored) == Up || (Advanced(p.state) && f.heard))
    && (stored.Some? && f.session.value.local_diag != stored.value.local_diag ==>
        f.session.value.local_diag == BFDDIAG_NEIGHBORSAIDDOWN)
    && (StateOf(stored) == Up && StateOf(f.session) != Up ==> f.session.value.local_diag == BFDDIAG_NEIGHBORSAIDDOWN)
    && forall q :: q in f.sent && Advanced(q.state) ==> Advanced(StateOf(f.session))
  }

  /** The bounds hold for any state machine that is cautious, so for both daemons. */
  lemma EffectBounded(next: (Status, State) -> Status, keeps: bool, stored: Option<Session>, p: Packet,
                      fresh_discr: nat)
    requires Cautious(next)
    ensures EffectOk(stored, p, Recv(next, keeps, stored, p, fresh_discr))
  {
    var s := if stored.None? then FRESH else stored.value;
    var t := Learn(Attach(s, fresh_discr), p);
    assert CautiousStep(StatusOf(t), p.state, next(StatusOf(t), p.state));
    hide Accepted;
  }

  lemma EffectsOfDaemons(stored: Option<Session>, p: Packet, fresh_discr: nat)
    ensures EffectOk(stored, p, RecvC(stored, p, fresh_discr)) && EffectOk(stored, p, RecvCpp(stored, p, fresh_discr))
  {
    BothCautious();
    EffectBounded(NextC, false, stored, p, fresh_discr);
    EffectBounded(NextRfc, true, stored, p, fresh_discr);
  }

  lemma EffectRfc(s: Session, p: Packet)
    ensures EffectOk(Some(s), p, RecvRfc(s, p))
  {
    BothCautious();
    var t := Learn(s, p);
    var st := NextRfc(StatusOf(t), p.state);
    assert CautiousStep(StatusOf(t), p.state, st);
    hide NextRfc;
    hide Accepted;
    hide Cautious;
    var u := WithStatus(t, st);
    assert RecvRfc(s, p).session.value in {s, t, u};
  }

  /** What one packet does to one endpoint, whatever its kind. */
  lemma DeliveryEffect(e: Endpoint, p: Packet)
    requires EndpointOk(e) && e.counter <= COUNTER_LIMIT
    ensures EndpointOk(AfterDelivery(e, p)) && e.heard <= AfterDelivery(e, p).heard <= e.heard + {p}
    ensures AfterDelivery(e, p).State() == Up ==>
      e.State() == Up || (Advanced(p.state) && p in AfterDelivery(e, p).heard)
    ensures forall q :: q in Received(e, p).sent && Advanced(q.state) ==> AfterDelivery(e, p).heard != {}
  {
    hide RecvC;
    hide RecvCpp;
    hide RecvRfc;
    match e.kind {
      case DaemonC => EffectsOfDaemons(e.session, p, Htonl(e.counter + 1));
      case DaemonCpp => EffectsOfDaemons(e.session, p, Htonl(e.counter + 1));
      case ActiveRfc => if e.session.Some? { EffectRfc(e.session.value, p); }
    }
    assert p in AfterDelivery(e, p).heard || !Received(e, p).heard;
  }

  /** A packet from the other side keeps what the two links promise. */
  lemma LinksAfterDelivery(e: Endpoint, net: set<Packet>, peer: Endpoint, peerNet: set<Packet>, p: Packet)
    requires EndpointOk(e) && e.counter <= COUNTER_LIMIT && p in peerNet
    requires LinkOk(e, net, peer) && LinkOk(peer, peerNet, e)
    ensures LinkOk(AfterDelivery(e, p), net + PacketSet(Received(e, p).sent), peer)
    ensures LinkOk(peer, peerNet, AfterDelivery(e, p))
  {
    DeliveryEffect(e, p);
    hide AfterDelivery;
    hide Received;
    hide EndpointOk;
  }

  /** A transmission tells no more than the state of the session. */
  lemma LinkAfterTimer(e: Endpoint, net: set<Packet>, peer: Endpoint, alive: bool)
    requires EndpointOk(e) && LinkOk(e, net, peer)
    ensures LinkOk(e, net + PacketSet(SentAtTimer(e, alive)), peer)
  {
  }

  lemma StepOk(sys: System, step: Step)
    requires SystemOk(sys)
    ensures SystemOk(Apply(sys, step))
  {
    hide AfterDelivery;
    hide Received;
    hide SentAtTimer;
    match step
    case Deliver(to, p) =>
      if to < 2 && p in sys.nets[1 - to] {
        DeliveryEffect(sys.ends[to], p);
        LinksAfterDelivery(sys.ends[to], sys.nets[to], sys.ends[1 - to], sys.nets[1 - to], p);
      }
    case Timer(at, alive) =>
      if at < 2 {
        LinkAfterTimer(sys.ends[at], sys.nets[at], sys.ends[1 - at], alive);
      }
    case Expire(at) =>
  }

  lemma {:induction false} RunOk(sys: System, steps: seq<Step>)
    requires SystemOk(sys)
    ensures SystemOk(Run(sys, steps))
  {
    if steps != [] {
      RunOk(sys, steps[..|steps| - 1]);
      StepOk(Run(sys, steps[..|steps| - 1]), steps[|steps| - 1]);
    }
  }

  /** The handshake, over any run of any two endpoints: a side is Up only if the other side has already
      processed a packet that this side sent; and a daemon that has been Up and no longer is shows diagnostic code 3. */
  lemma Handshake(kinds: seq<Kind>, discrs: seq<nat>, steps: seq<Step>, i: nat)
    requires |kinds| == |discrs| == 2 && i < 2
    ensures var sys := Run(Initial(kinds, discrs), steps);
      (sys.ends[i].State() == Up ==> sys.ends[1 - i].heard * sys.nets[i] != {})
      && (sys.ends[i].everUp && kinds[i] != ActiveRfc && sys.ends[i].State() != Up ==>
          sys.ends[i].Diag() == BFDDIAG_NEIGHBORSAIDDOWN)
  {
    RunOk(Initial(kinds, discrs), steps);
    KindsKept(Initial(kinds, discrs), steps, i);
    var sys := Run(Initial(kinds, discrs), steps);
    assert sys.ends[1 - i].heard <= sys.nets[i];
  }

  lemma {:induction false} KindsKept(sys: System, steps: seq<Step>, i: nat)
    requires Paired(sys) && i < 2
    ensures Run(sys, steps).ends[i].kind == sys.ends[i].kind
  {
    if steps != [] {
      KindsKept(sys, steps[..|steps| - 1], i);
    }
  }

  /** Both daemons only ever answer: two of them never send a packet and never create a session. */
  lemma {:induction false} PassiveSilence(kinds: seq<Kind>, discrs: seq<nat>, steps: seq<Step>)
    requires |kinds| == |discrs| == 2 && kinds[0] != ActiveRfc && kinds[1] != ActiveRfc
    ensures Run(Initial(kinds, discrs), steps) == Initial(kinds, discrs)
  {
    if steps != [] {
      PassiveSilence(kinds, discrs, steps[..|steps| - 1]);
      SilentStep(Initial(kinds, discrs), steps[|steps| - 1]);
    }
  }

  lemma SilentStep(sys: System, step: Step)
    requires Paired(sys) && sys.nets == [{}, {}]
    requires forall i :: 0 <= i < 2 ==> sys.ends[i].session.None?
    ensures Apply(sys, step) == sys
  {
    var i := match step case Deliver(to, _) => to case Timer(at, _) => at case Expire(at) => at;
    if i < 2 {
      assert sys.ends[i := sys.ends[i]] == sys.ends;
      assert sys.nets[i] + PacketSet([]) == sys.nets[i];
      assert sys.nets[i := sys.nets[i]] == sys.nets;
    }
  }

  // ---- what a daemon does on hearing Down, and what it never sends ----

  /** Over any run: a daemon that gets a packet with Down or AdminDown that passes the checks is not Up after that
      step, and if it was Up it is in Down with code 3. */
  lemma DownTakesDown(kinds: seq<Kind>, discrs: seq<nat>, steps: seq<Step>, i: nat, p: Packet)
    requires |kinds| == |discrs| == 2 && i < 2 && kinds[i] != ActiveRfc
    requires p in Run(Initial(kinds, discrs), steps).nets[1 - i] && (p.state == Down || p.state == AdminDown)
    requires !Discarded(p)
    ensures var e := Run(Initial(kinds, discrs), steps).ends[i];
      var e' := Run(Initial(kinds, discrs), steps + [Deliver(i, p)]).ends[i];
      e'.State() != Up && (e.State() == Up ==> e'.State() == Down && e'.Diag() == BFDDIAG_NEIGHBORSAIDDOWN)
  {
    KindsKept(Initial(kinds, discrs), steps, i);
    RunMore(Initial(kinds, discrs), steps, Deliver(i, p));
    hide *;
    DownDelivered(Run(Initial(kinds, discrs), steps), i, p);
  }

  lemma DownDelivered(sys: System, i: nat, p: Packet)
    requires Paired(sys) && i < 2 && sys.ends[i].kind != ActiveRfc && !Discarded(p)
    requires p in sys.nets[1 - i] && (p.state == Down || p.state == AdminDown)
    ensures var e, e' := sys.ends[i], Apply(sys, Deliver(i, p)).ends[i];
      e'.State() != Up && (e.State() == Up ==> e'.State() == Down && e'.Diag() == BFDDIAG_NEIGHBORSAIDDOWN)
  {
    HearsDown(sys.ends[i], p);
    hide AfterDelivery;
    hide Received;
    hide Discarded;
  }

  lemma HearsDown(e: Endpoint, p: Packet)
    requires e.kind != ActiveRfc && e.counter <= COUNTER_LIMIT && !Discarded(p)
    requires p.state == Down || p.state == AdminDown
    ensures AfterDelivery(e, p).State() != Up
    ensures e.State() == Up ==>
      AfterDelivery(e, p).State() == Down && AfterDelivery(e, p).Diag() == BFDDIAG_NEIGHBORSAIDDOWN
  {
    DaemonLaw(e, p);
    hide Received;
    hide OnPacket;
    hide Discarded;
    hide Htonl;
    var f := Received(e, p);
    DownMoves(e.kind.DaemonCpp?, e.session, p, Htonl(e.counter + 1), f.session, f.sent, f.allocates);
  }

  /** What a packet does to an endpoint that is a daemon. */
  lemma DaemonLaw(e: Endpoint, p: Packet)
    requires e.kind != ActiveRfc && e.counter <= COUNTER_LIMIT
    ensures var f := Received(e, p);
      OnPacket(e.kind.DaemonCpp?, e.session, p, Htonl(e.counter + 1), f.session, f.sent, f.allocates)
  {
    SwapDistinct(e.counter + 1, 0);
    hide Htonl;
    hide OnPacket;
    hide RecvC;
    hide RecvCpp;
    if e.kind.DaemonCpp? {
      OnPacketCpp(e.session, p, Htonl(e.counter + 1));
    } else {
      OnPacketC(e.session, p, Htonl(e.counter + 1));
    }
  }

  /** Over any run: no packet that a daemon has sent asks. */
  lemma {:induction false} NeverAsks(kinds: seq<Kind>, discrs: seq<nat>, steps: seq<Step>, i: nat)
    requires |kinds| == |discrs| == 2 && i < 2 && kinds[i] != ActiveRfc
    ensures forall p :: p in Run(Initial(kinds, discrs), steps).nets[i] ==> !p.poll
  {
    if steps != [] {
      var most := steps[..|steps| - 1];
      NeverAsks(kinds, discrs, most, i);
      KindsKept(Initial(kinds, discrs), most, i);
      var sys := Run(Initial(kinds, discrs), most);
      hide Initial;
      match steps[|steps| - 1]
      case Deliver(to, p) =>
        if to == i {
          AnswersOnly(sys.ends[i], p);
        }
        hide AfterDelivery;
        hide Received;
      case Timer(at, alive) =>
        if at == i {
          TellsOnly(sys.ends[i], alive);
        }
        hide SentAtTimer;
      case Expire(at) =>
    }
  }

  lemma AnswersOnly(e: Endpoint, p: Packet)
    requires e.kind != ActiveRfc && e.counter <= COUNTER_LIMIT
    ensures forall q :: q in Received(e, p).sent ==> !q.poll && q.final
  {
    DaemonLaw(e, p);
    hide Received;
    hide Htonl;
    hide Discarded;
    hide Learns;
    hide Moves;
  }

  lemma TellsOnly(e: Endpoint, alive: bool)
    requires e.kind != ActiveRfc
    ensures forall q :: q in SentAtTimer(e, alive) ==> !q.poll
  {
    if e.session.Some? {
      TransmitTells(e.session.value);
    }
    hide Transmit;
  }

  // ---- a session can come up ----

  lemma RunMore(sys: System, steps: seq<Step>, step: Step)
    requires Paired(sys)
    ensures Run(sys, steps + [step]) == Apply(Run(sys, steps), step)
  {
    assert (steps + [step])[..|steps|] == steps;
  }

  /** A transmission time, and the delivery of the packet that was sent. */
  lemma SendAndDeliver(sys: System, steps: seq<Step>, i: nat, p: Packet) returns (more: seq<Step>)
    requires Paired(sys) && i < 2 && SentAtTimer(Run(sys, steps).ends[i], true) == [p]
    ensures Run(sys, more).ends[i] == Run(sys, steps).ends[i]
    ensures Run(sys, more).ends[1 - i] == AfterDelivery(Run(sys, steps).ends[1 - i], p)
  {
    var once := steps + [Timer(i, true)];
    more := once + [Deliver(1 - i, p)];
    RunMore(sys, steps, Timer(i, true));
    RunMore(sys, once, Deliver(1 - i, p));
    assert p in Run(sys, once).nets[i];
  }

  /** The sessions on the way to Up: the Active neighbour `d` at first and when it is Up, and daemon `b` in between. */
  function Asking(d: nat): (r: Session) {
    FRESH.(local_discr := d, attached := true)
  }

  function Answering(b: nat, d: nat): (r: Session) {
    Session(Init, Down, b, d, BFD_NODIAG, false, BFDDFLT_REQUIREDMINRX, false, false, true)
  }

  function Answered(b: nat, d: nat): (r: Session) {
    Session(Up, Init, d, b, BFD_NODIAG, false, BFDDFLT_REQUIREDMINRX, false, false, true)
  }

  lemma FirstPacket(e: Endpoint, d: nat)
    requires e.kind != ActiveRfc && e.session.None? && e.counter <= COUNTER_LIMIT && 0 < d
    ensures AfterDelivery(e, PacketOf(Asking(d))).session == Some(Answering(Htonl(e.counter + 1), d))
  {
    hide Htonl;
  }

  lemma SecondPacket(e: Endpoint, b: nat, d: nat)
    requires e.kind == ActiveRfc && e.session == Some(Asking(d)) && e.counter <= COUNTER_LIMIT && 0 < b && 0 < d
    ensures AfterDelivery(e, PacketOf(Answering(b, d))).session == Some(Answered(b, d))
  {
    hide Htonl;
  }

  lemma ThirdPacket(e: Endpoint, b: nat, d: nat)
    requires e.kind != ActiveRfc && e.session == Some(Answering(b, d)) && e.counter <= COUNTER_LIMIT && 0 < b && 0 < d
    ensures AfterDelivery(e, PacketOf(Answered(b, d))).State() == Up
  {
    hide Htonl;
  }

  lemma SentAtFirst(e: Endpoint)
    requires e.kind == ActiveRfc && e.session.Some?
    ensures SentAtTimer(e, true) == [PacketOf(e.session.value)]
  {
  }

  lemma SentInAnswer(e: Endpoint, b: nat, d: nat)
    requires e.kind != ActiveRfc && e.session == Some(Answering(b, d)) && 0 < b && 0 < d
    ensures SentAtTimer(e, true) == [PacketOf(Answering(b, d))]
  {
  }

  /** The Active neighbour and a daemon of either kind reach Up on both sides. */
  lemma BothUp(kind: Kind, d: nat) returns (steps: seq<Step>)
    requires kind != ActiveRfc && 0 < d
    ensures var sys := Run(Initial([ActiveRfc, kind], [d, 0]), steps);
      sys.ends[0].State() == Up && sys.ends[1].State() == Up
  {
    var s0, b := Initial([ActiveRfc, kind], [d, 0]), Htonl(1);
    SwapDistinct(1, 0);
    assert Run(s0, []) == s0;
    hide Htonl;
    hide Run;
    hide AfterDelivery;
    hide PacketOf;
    hide SentAtTimer;
    FirstPacket(s0.ends[1], d);
    SentAtFirst(s0.ends[0]);
    steps := SendAndDeliver(s0, [], 0, PacketOf(Asking(d)));
    hide Initial;
    steps := Return(s0, steps, b, d);
  }

  /** From the daemon's answer on. */
  lemma Return(s0: System, steps: seq<Step>, b: nat, d: nat) returns (more: seq<Step>)
    requires Paired(s0) && s0.ends[0].kind == ActiveRfc && s0.ends[1].kind != ActiveRfc && 0 < b && 0 < d
    requires Run(s0, steps).ends[0].session == Some(Asking(d))
    requires Run(s0, steps).ends[1].session == Some(Answering(b, d))
    ensures Run(s0, more).ends[0].State() == Up && Run(s0, more).ends[1].State() == Up
  {
    hide Run;
    hide AfterDelivery;
    hide PacketOf;
    hide SentAtTimer;
    KindsKept(s0, steps, 0);
    KindsKept(s0, steps, 1);
    SecondPacket(Run(s0, steps).ends[0], b, d);
    SentInAnswer(Run(s0, steps).ends[1], b, d);
    more := SendAndDeliver(s0, steps, 1, PacketOf(Answering(b, d)));
    KindsKept(s0, more, 0);
    KindsKept(s0, more, 1);
    ThirdPacket(Run(s0, more).ends[1], b, d);
    SentAtFirst(Run(s0, more).ends[0]);
    more := SendAndDeliver(s0, more, 0, PacketOf(Answered(b, d)));
  }
}
