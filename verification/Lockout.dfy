/** How far a counter device can run ahead of a server before no message of its own
    gets it accepted again. */
module Lockout {
  import opened Terms
  import opened SessionLogs
  import opened CounterResolvers
  import Rainbow
  import opened Entities
  import opened Network
  import opened Theorems

  // ---- The lock-out threshold -----------------------------------------------------------

  predicate CounterServer(c: ServerConfig) {
    !c.strategy.Clock?
  }

  /** With `last` accepted last, the server still resolves this epoch of p: one of the
      next F of a scan or table, or one a rainbow table covers. */
  predicate Reaches(c: ServerConfig, p: Peer, last: int, epoch: nat) {
    last < epoch &&
    match c.strategy
    case Scan => epoch <= last + c.log.forward
    case Table(forward) => epoch <= last + forward
    case TimeMemory(lifetime, covered) => epoch < lifetime && Rainbow.PointCovered(c.en, lifetime, covered, p, epoch)
    case Clock(_) => false
  }

  /** An honest counter device and an honest counter server enrolled with each other. */
  predicate Couple(sys: System, d: Peer, s: Peer) {
    && Honest(sys, d, s) && !sys.devices[d].usesClock && CounterServer(sys.servers[s])
    && s in sys.devices[d].secret && d in sys.servers[s].en.secret
    && d in sys.lam && s in sys.lam
  }

  predicate InReach(sys: System, w: World, d: Peer, s: Peer, epoch: nat)
    requires Couple(sys, d, s) && s in w.srv
  {
    Reaches(sys.servers[s], d, Last(w.srv[s].log.last, d), epoch)
  }

  /** An M1 body of d for s, still on the wire, with an epoch in reach. */
  predicate InFlight(sys: System, w: World, d: Peer, s: Peer, b: Body)
    requires Couple(sys, d, s) && s in w.srv
  {
    b in w.wire && b.Sealed? && b.key == PairRoot(sys, d, s) && b.aad.NoAad? && b.plain.Plain1?
    && InReach(sys, w, d, s, b.plain.epoch)
  }

  /** The device's counter will come to an epoch in reach. */
  ghost predicate CanReach(sys: System, w: World, d: Peer, s: Peer)
    requires Couple(sys, d, s) && d in w.dev && s in w.srv
  {
    exists epoch: nat :: Counter(w.dev[d], s) <= epoch && InReach(sys, w, d, s, epoch)
  }

  /** The server has not blocked the device, and an M1 in reach is on the wire or
      can still be built. */
  ghost predicate Open(sys: System, w: World, d: Peer, s: Peer)
    requires Couple(sys, d, s) && d in w.dev && s in w.srv
  {
    d !in w.srv[s].log.blocked &&
    ((exists b :: InFlight(sys, w, d, s, b)) || (s !in w.dev[d].log.blocked && CanReach(sys, w, d, s)))
  }

  lemma ResolvesInReach(c: ServerConfig, last: map<Peer, nat>, cur: nat, p: Peer, epoch: nat)
    requires ValidEnrolment(c.en) && CounterServer(c) && p in c.en.secret
    ensures Resolve(c, last, cur, H2(c.en.secret[p], epoch)) == Found(p, epoch)
       <==> Reaches(c, p, Last(last, p), epoch)
  {
    var lam := c.en.secret[p];
    assert Owner(c.en, lam) == Some(p);
    if c.strategy.TimeMemory? { Rainbow.CoveredExactly(c.en, c.strategy.lifetime, c.strategy.covered, p, epoch); }
    hide ValidEnrolment, Rainbow.PointCovered;
  }

  // ---- The threshold in closed form -------------------------------------------------------

  /** F: how far ahead of the last accepted epoch a scan or table looks. */
  function Tolerance(c: ServerConfig): nat
    requires c.strategy.Scan? || c.strategy.Table?
  {
    if c.strategy.Scan? then c.log.forward else c.strategy.forward
  }

  /** While the device is ahead, as it is unless restarted, it can still build an epoch in reach of
      a scan or table exactly when its counter is at most last + F, and of a rainbow table
      exactly when some epoch from its counter on is covered, whatever was accepted last. */
  lemma CanReachExactly(sys: System, w: World, d: Peer, s: Peer)
    requires Couple(sys, d, s) && d in w.dev && s in w.srv && Last(w.srv[s].log.last, d) < Counter(w.dev[d], s)
    ensures var c := sys.servers[s];
            CanReach(sys, w, d, s) <==>
              if c.strategy.TimeMemory? then
                exists epoch :: Counter(w.dev[d], s) <= epoch < c.strategy.lifetime
                                && Rainbow.PointCovered(c.en, c.strategy.lifetime, c.strategy.covered, d, epoch)
              else Counter(w.dev[d], s) <= Last(w.srv[s].log.last, d) + Tolerance(c)
  {
    hide Rainbow.PointCovered;
    var c := sys.servers[s];
    if !c.strategy.TimeMemory? && Counter(w.dev[d], s) <= Last(w.srv[s].log.last, d) + Tolerance(c) {
      assert InReach(sys, w, d, s, Counter(w.dev[d], s));
    }
    if c.strategy.TimeMemory? {
      forall epoch: nat | Counter(w.dev[d], s) <= epoch
        ensures InReach(sys, w, d, s, epoch)
           <==> epoch < c.strategy.lifetime && Rainbow.PointCovered(c.en, c.strategy.lifetime, c.strategy.covered, d,
                                                                    epoch)
      {}
    }
  }

  /** The next message is in reach of a scan or table exactly when the counter is at most
      last + F, and of a rainbow table exactly when its own point is covered: no number of
      messages lost before makes a difference. */
  lemma NextInReach(sys: System, w: World, d: Peer, s: Peer)
    requires Couple(sys, d, s) && d in w.dev && s in w.srv && Last(w.srv[s].log.last, d) < Counter(w.dev[d], s)
    ensures var (c, epoch) := (sys.servers[s], Counter(w.dev[d], s));
            InReach(sys, w, d, s, epoch) <==>
              if c.strategy.TimeMemory? then
                epoch < c.strategy.lifetime && Rainbow.PointCovered(c.en, c.strategy.lifetime, c.strategy.covered, d,
                                                                    epoch)
              else epoch <= Last(w.srv[s].log.last, d) + Tolerance(c)
  {}

  // ---- A handshake ------------------------------------------------------------------------

  lemma CoupleFacts(sys: System, d: Peer, s: Peer)
    requires ValidSystem(sys) && Couple(sys, d, s)
    ensures sys.devices[d].lam == sys.lam[d] && sys.devices[d].secret[s] == sys.lam[s]
    ensures ValidEnrolment(sys.servers[s].en) && sys.servers[s].identity == s
    ensures sys.servers[s].lam == sys.lam[s] && sys.servers[s].en.secret[d] == sys.lam[d]
  {
    assert ValidDevice(sys, d, sys.devices[d]) && ValidServer(sys, s, sys.servers[s]);
  }

  /** The delivery of an M1 body, in coverage. */
  function Deliver(b: Body, nj: Nonce, iv: nat): Delivery
    requires b.Sealed? && b.plain.Plain1?
  {
    Delivery(Message1(b.plain.pid, b.iv, b), nj, iv, true, 0, 0)
  }

  /** The M2 that answers an M1 body. */
  function Reply(b: Body, nj: Nonce, iv: nat): Body
    requires b.Sealed? && b.plain.Plain1?
  {
    Sealed(b.key, iv, Plain2(nj, b.plain.epoch), Bound(b.plain.pid, b.plain.ni))
  }

  /** Delivering an M1 of d, in coverage and unblocked: if its epoch is in reach it is
      accepted, and else the server is left as it was. */
  lemma DeliveryHandled(c: ServerConfig, st: ServerState, d: Peer, b: Body, nj: Nonce, iv: nat)
    requires ValidEnrolment(c.en) && CounterServer(c) && d in c.en.secret && d !in st.log.blocked
    requires b.Sealed? && b.plain.Plain1? && b.aad.NoAad? && b.key == Root(c.en.secret[d], c.lam)
    requires b.plain.pid == H2(c.en.secret[d], b.plain.epoch)
    ensures var (next, out) := HandleDelivery(c, st, Deliver(b, nj, iv));
            if Reaches(c, d, Last(st.log.last, d), b.plain.epoch) then
              && next.log.blocked == st.log.blocked && Last(next.log.last, d) == b.plain.epoch
              && out == AuthResult(Message2(c.identity, iv, Reply(b, nj, iv)),
                                   Session(b.key, b.plain.ni, nj, b.plain.epoch), d)
            else next == st && out.Rejected?
  {
    var m := Deliver(b, nj, iv);
    ResolvesInReach(c, st.log.last, 0, d, b.plain.epoch);
    if Resolve(c, st.log.last, 0, m.m1.pid).Found? { ResolveSound(c, st.log.last, 0, m.m1.pid); }
    AcceptsExactly(c, st, m.m1, m.nj, m.iv, m.inRange, m.resolveAt, m.acceptAt);
    HandleEffect(c, st, m);
    hide Resolve, ValidEnrolment, Reaches, HandleResolved;
  }

  lemma InFlightPid(sys: System, w: World, d: Peer, s: Peer, b: Body)
    requires Inv(sys, w) && Couple(sys, d, s) && InFlight(sys, w, d, s, b)
    ensures b.plain.pid == H2(sys.lam[d], b.plain.epoch)
  {
    hide ValidSystem, AllCaused, AcceptancesDiffer, AllRemembered, DevicesOk, AgreementsDiffer, AllAhead;
    assert BodyOk(sys, w.events, b, d, s);
  }

  lemma DeliveryAccepted(sys: System, w: World, d: Peer, s: Peer, b: Body, nj: Nonce, iv: nat)
    requires Shaped(sys, w) && Couple(sys, d, s) && d !in w.srv[s].log.blocked
    requires InFlight(sys, w, d, s, b) && b.plain.pid == H2(sys.lam[d], b.plain.epoch)
    ensures var next := Next(sys, w, DeliverM1(s, Deliver(b, nj, iv)));
            && next.events == w.events + [Accepted(s, d, Session(b.key, b.plain.ni, nj, b.plain.epoch))]
            && next.dev == w.dev && Reply(b, nj, iv) in next.wire
            && next.srv[s].log.blocked == w.srv[s].log.blocked && Last(next.srv[s].log.last, d) == b.plain.epoch
  {
    hide ValidSystem, HandleDelivery, ReadingsAfter, ValidEnrolment, CanSend, Reaches;
    CoupleFacts(sys, d, s);
    OnWire(sys, w.wire, b);
    DeliveryHandled(sys.servers[s], w.srv[s], d, b, nj, iv);
  }

  /** The M1 body of d for s at an epoch, and the M2 body that answers it. */
  function Body1(sys: System, d: Peer, s: Peer, ni: Nonce, iv: nat, epoch: nat): Body
    requires d in sys.lam && s in sys.lam
  {
    Sealed(PairRoot(sys, d, s), iv, Plain1(H2(sys.lam[d], epoch), ni, epoch), NoAad)
  }

  function Body2(sys: System, d: Peer, s: Peer, ni: Nonce, nj: Nonce, iv: nat, epoch: nat): Body
    requires d in sys.lam && s in sys.lam
  {
    Sealed(PairRoot(sys, d, s), iv, Plain2(nj, epoch), Bound(H2(sys.lam[d], epoch), ni))
  }

  function BuildNow(d: Peer, s: Peer, ni: Nonce, iv: nat): Step {
    BuildStep(d, s, ni, iv, 0, true)
  }

  function Deliver1(sys: System, d: Peer, s: Peer, ni: Nonce, nj: Nonce, iv: nat, iv2: nat, epoch: nat): Step
    requires d in sys.lam && s in sys.lam
  {
    DeliverM1(s, Deliver(Body1(sys, d, s, ni, iv, epoch), nj, iv2))
  }

  function Deliver2(sys: System, d: Peer, s: Peer, ni: Nonce, nj: Nonce, iv2: nat, epoch: nat): Step
    requires d in sys.lam && s in sys.lam
  {
    DeliverM2(d, Message2(s, iv2, Body2(sys, d, s, ni, nj, iv2, epoch)), false)
  }

  /** What the device's next message looks like. */
  lemma NextMessage(sys: System, w: World, d: Peer, s: Peer, ni: Nonce, iv: nat)
    requires Shaped(sys, w) && Couple(sys, d, s) && s !in w.dev[d].log.blocked
    ensures var epoch := Counter(w.dev[d], s);
            var next := Next(sys, w, BuildNow(d, s, ni, iv));
            && next.events == w.events + [Started(d, s, epoch, ni)]
            && next.srv == w.srv && next.wire == w.wire + {Body1(sys, d, s, ni, iv, epoch)}
            && Counter(next.dev[d], s) == epoch + 1 && next.dev[d].log == w.dev[d].log
            && s in next.dev[d].pending
            && next.dev[d].pending[s] == Pending(s, epoch, H2(sys.lam[d], epoch), ni, PairRoot(sys, d, s))
  {
    hide ValidSystem;
    CoupleFacts(sys, d, s);
  }

  /** Build and deliver: the server accepts, the device waits, the reply is out. */
  lemma TwoMessages(sys: System, w: World, d: Peer, s: Peer, ni: Nonce, nj: Nonce, iv: nat, iv2: nat)
    requires Inv(sys, w) && Couple(sys, d, s)
    requires d !in w.srv[s].log.blocked && s !in w.dev[d].log.blocked
    requires InReach(sys, w, d, s, Counter(w.dev[d], s))
    ensures var epoch := Counter(w.dev[d], s);
            var next := Next(sys, Next(sys, w, BuildNow(d, s, ni, iv)), Deliver1(sys, d, s, ni, nj, iv, iv2, epoch));
            && next.events == w.events + [Started(d, s, epoch, ni),
                                          Accepted(s, d, Session(PairRoot(sys, d, s), ni, nj, epoch))]
            && Body2(sys, d, s, ni, nj, iv2, epoch) in next.wire
            && Last(next.srv[s].log.last, d) == epoch && next.srv[s].log.blocked == w.srv[s].log.blocked
            && Counter(next.dev[d], s) == epoch + 1 && next.dev[d].log == w.dev[d].log
            && s in next.dev[d].pending
            && next.dev[d].pending[s] == Pending(s, epoch, H2(sys.lam[d], epoch), ni, PairRoot(sys, d, s))
  {
    hide Next, ValidSystem;
    NextMessage(sys, w, d, s, ni, iv);
    var w1 := Next(sys, w, BuildNow(d, s, ni, iv));
    hide Inv, Reaches, CounterServer;
    DeliveryAccepted(sys, w1, d, s, Body1(sys, d, s, ni, iv, Counter(w.dev[d], s)), nj, iv2);
  }

  /** ... and delivering the reply completes the session with the server's key. */
  lemma ThreeMessages(sys: System, w: World, d: Peer, s: Peer, ni: Nonce, nj: Nonce, iv: nat, iv2: nat)
    requires Inv(sys, w) && Couple(sys, d, s)
    requires d !in w.srv[s].log.blocked && s !in w.dev[d].log.blocked
    requires InReach(sys, w, d, s, Counter(w.dev[d], s))
    ensures var epoch := Counter(w.dev[d], s);
            var key := Session(PairRoot(sys, d, s), ni, nj, epoch);
            var replied := Next(sys, Next(sys, w, BuildNow(d, s, ni, iv)), Deliver1(sys, d, s, ni, nj, iv, iv2, epoch));
            var end := Next(sys, replied, Deliver2(sys, d, s, ni, nj, iv2, epoch));
            && end.events == w.events + [Started(d, s, epoch, ni), Accepted(s, d, key), Agreed(d, s, key)]
            && InStep(sys, end, d, s)
  {
    hide Next, ValidSystem, CounterServer;
    var epoch := Counter(w.dev[d], s);
    TwoMessages(sys, w, d, s, ni, nj, iv, iv2);
    var replied := Next(sys, Next(sys, w, BuildNow(d, s, ni, iv)), Deliver1(sys, d, s, ni, nj, iv, iv2, epoch));
    CompletesNow(sys, replied, d, s, replied.dev[d].pending[s], nj, iv2);
  }

  function Handshake(sys: System, d: Peer, s: Peer, ni: Nonce, nj: Nonce, iv: nat, iv2: nat, epoch: nat): seq<Step>
    requires d in sys.lam && s in sys.lam
  {
    [BuildNow(d, s, ni, iv), Deliver1(sys, d, s, ni, nj, iv, iv2, epoch), Deliver2(sys, d, s, ni, nj, iv2, epoch)]
  }

  /** Neither side has blocked the other, and the device is one epoch ahead: nothing was
      accepted and nothing built yet, or the newest message built was accepted. */
  predicate InStep(sys: System, w: World, d: Peer, s: Peer) {
    && d in w.dev && s in w.srv && d !in w.srv[s].log.blocked && s !in w.dev[d].log.blocked
    && Last(w.srv[s].log.last, d) + 1 == Counter(w.dev[d], s)
  }

  /** While the counter is in reach and neither side has blocked the other, the next
      handshake delivered in coverage succeeds, with equal keys, and leaves both in step. */
  lemma NextHandshakeSucceeds(sys: System, w: World, d: Peer, s: Peer, ni: Nonce, nj: Nonce, iv: nat, iv2: nat)
    requires Inv(sys, w) && Couple(sys, d, s)
    requires d !in w.srv[s].log.blocked && s !in w.dev[d].log.blocked
    requires InReach(sys, w, d, s, Counter(w.dev[d], s))
    ensures var epoch := Counter(w.dev[d], s);
            var key := Session(PairRoot(sys, d, s), ni, nj, epoch);
            var end := After(sys, w, Handshake(sys, d, s, ni, nj, iv, iv2, epoch));
            && end.events == w.events + [Started(d, s, epoch, ni), Accepted(s, d, key), Agreed(d, s, key)]
            && InStep(sys, end, d, s)
  {
    hide Next, ValidSystem, CounterServer, After;
    var epoch := Counter(w.dev[d], s);
    ThreeMessages(sys, w, d, s, ni, nj, iv, iv2);
    ThreeSteps(sys, w, BuildNow(d, s, ni, iv), Deliver1(sys, d, s, ni, nj, iv, iv2, epoch),
               Deliver2(sys, d, s, ni, nj, iv2, epoch));
  }

  lemma CompletesNow(sys: System, w: World, d: Peer, s: Peer, p: Pending, nj: Nonce, iv: nat)
    requires Shaped(sys, w) && d in sys.devices && s in w.dev[d].pending && w.dev[d].pending[s] == p
    requires Sealed(p.root, iv, Plain2(nj, p.epoch), Bound(p.pid, p.ni)) in w.wire
    ensures var next := Next(sys, w, DeliverM2(d,
                                               Message2(s, iv,
                                                        Sealed(p.root, iv, Plain2(nj, p.epoch), Bound(p.pid, p.ni))),
                                                            false));
            && next.events == w.events + [Agreed(d, s, Session(p.root, p.ni, nj, p.epoch))]
            && next.srv == w.srv && Counter(next.dev[d], s) == Counter(w.dev[d], s)
            && next.dev[d].log.blocked == w.dev[d].log.blocked
  {
    hide ValidSystem;
  }

  /** The device is not restarted. */
  predicate NoRestart(steps: seq<Step>, d: Peer) {
    forall i :: 0 <= i < |steps| ==> steps[i] != Restart(d)
  }

  lemma SeenAccepting(sys: System, w: World, steps: seq<Step>, s: Peer, p: Peer, k: nat)
    requires Shaped(sys, w) && |w.events| <= k < |After(sys, w, steps).events|
    requires IsAcceptance(After(sys, w, steps).events[k], s, p)
    ensures AcceptsLater(sys, w, steps, s, p)
  {
    hide ValidSystem, After, IsAcceptance;
  }

  lemma FlightAccepts(sys: System, w: World, d: Peer, s: Peer, b: Body) returns (steps: seq<Step>)
    requires Inv(sys, w) && Couple(sys, d, s) && d !in w.srv[s].log.blocked && InFlight(sys, w, d, s, b)
    ensures NoRestart(steps, d) && AcceptsLater(sys, w, steps, s, d)
  {
    hide ValidSystem, WireOk, AllCaused, AcceptancesDiffer, AllRemembered, DevicesOk, AgreementsDiffer, AllAhead;
    hide Next, After, AcceptsLater, Reaches;
    InFlightPid(sys, w, d, s, b);
    var step := DeliverM1(s, Deliver(b, Nonce([]), 0));
    DeliveryAccepted(sys, w, d, s, b, Nonce([]), 0);
    steps := [step];
    OneStep(sys, w, step);
    SeenAccepting(sys, w, steps, s, d, |w.events|);
  }

  lemma InvShaped(sys: System, w: World)
    requires Inv(sys, w)
    ensures Shaped(sys, w)
  {}

  lemma NextAccepts(sys: System, w: World, d: Peer, s: Peer) returns (steps: seq<Step>)
    requires Inv(sys, w) && Couple(sys, d, s) && d !in w.srv[s].log.blocked && s !in w.dev[d].log.blocked
    requires InReach(sys, w, d, s, Counter(w.dev[d], s))
    ensures NoRestart(steps, d) && AcceptsLater(sys, w, steps, s, d)
  {
    hide ValidSystem, WireOk, AllCaused, AcceptancesDiffer, AllRemembered, DevicesOk, AgreementsDiffer, AllAhead;
    hide Next, After, AcceptsLater, Reaches, Body1, Body2;
    var epoch, none := Counter(w.dev[d], s), Nonce([]);
    TwoMessages(sys, w, d, s, none, none, 0, 0);
    steps := [BuildNow(d, s, none, 0), Deliver1(sys, d, s, none, none, 0, 0, epoch)];
    TwoSteps(sys, w, steps[0], steps[1]);
    SeenAccepting(sys, w, steps, s, d, |w.events| + 1);
  }

  lemma AcceptsAfter(sys: System, w: World, step: Step, steps: seq<Step>, s: Peer, p: Peer)
    requires Shaped(sys, w) && AcceptsLater(sys, Next(sys, w, step), steps, s, p)
    ensures AcceptsLater(sys, w, [step] + steps, s, p)
  {
    hide Next, ValidSystem, After;
    AfterStart(sys, w, step, steps);
    EventsGrow(sys, w, step);
  }

  /** The device builds on until its counter comes to the epoch. */
  lemma {:induction false} BuildingAccepts(sys: System, w: World, d: Peer, s: Peer, epoch: nat)
    returns (steps: seq<Step>)
    requires Inv(sys, w) && Couple(sys, d, s) && d !in w.srv[s].log.blocked && s !in w.dev[d].log.blocked
    requires Counter(w.dev[d], s) <= epoch && InReach(sys, w, d, s, epoch)
    ensures NoRestart(steps, d) && AcceptsLater(sys, w, steps, s, d)
    decreases epoch - Counter(w.dev[d], s)
  {
    hide ValidSystem, Reaches, AcceptsLater;
    if Counter(w.dev[d], s) == epoch {
      steps := NextAccepts(sys, w, d, s);
    } else {
      var build := BuildNow(d, s, Nonce([]), 0);
      NextMessage(sys, w, d, s, Nonce([]), 0);
      StepKeepsInv(sys, w, build);
      hide Inv, Next;
      assert Shaped(sys, w) by { InvShaped(sys, w); }
      var rest := BuildingAccepts(sys, Next(sys, w, build), d, s, epoch);
      AcceptsAfter(sys, w, build, rest, s, d);
      steps := [build] + rest;
    }
  }

  /** While open, some continuation has the server accept the device. */
  lemma OpenAccepts(sys: System, w: World, d: Peer, s: Peer) returns (steps: seq<Step>)
    requires Inv(sys, w) && Couple(sys, d, s) && Open(sys, w, d, s)
    ensures NoRestart(steps, d) && AcceptsLater(sys, w, steps, s, d)
  {
    hide AcceptsLater, ValidSystem;
    if b :| InFlight(sys, w, d, s, b) {
      steps := FlightAccepts(sys, w, d, s, b);
    } else {
      var epoch: nat :| Counter(w.dev[d], s) <= epoch && InReach(sys, w, d, s, epoch);
      steps := BuildingAccepts(sys, w, d, s, epoch);
    }
  }

  // ---- Once shut, shut for good -----------------------------------------------------------

  lemma FlightAfterBuild(sys: System, w: World, d: Peer, s: Peer, d': Peer, s': Peer, ni: Nonce, iv: nat, reading: nat,
                         inRange: bool, b: Body)
    requires Shaped(sys, w) && Couple(sys, d, s) && d' in sys.devices
    requires InFlight(sys, AfterBuild(sys, w, d', s', ni, iv, reading, inRange), d, s, b)
    ensures InFlight(sys, w, d, s, b) ||
            (d' == d && s' == s && b.plain.epoch == Counter(w.dev[d], s) && s !in w.dev[d].log.blocked)
  {
    CoupleFacts(sys, d, s);
    assert ValidDevice(sys, d', sys.devices[d']);
    hide ValidSystem;
    if b !in w.wire {
      RootsDiffer(sys, d, s, d', s');
    }
  }

  lemma CanReachStill(sys: System, w: World, next: World, d: Peer, s: Peer)
    requires Couple(sys, d, s) && d in w.dev && s in w.srv && d in next.dev && s in next.srv
    requires Last(next.srv[s].log.last, d) == Last(w.srv[s].log.last, d)
        && Counter(w.dev[d], s) <= Counter(next.dev[d], s)
    ensures CanReach(sys, next, d, s) ==> CanReach(sys, w, d, s)
  {
    hide Reaches;
    forall epoch: nat | Counter(next.dev[d], s) <= epoch && InReach(sys, next, d, s, epoch)
      ensures Counter(w.dev[d], s) <= epoch && InReach(sys, w, d, s, epoch)
    {}
  }

  lemma ReachableNow(sys: System, w: World, d: Peer, s: Peer)
    requires Couple(sys, d, s) && d in w.dev && s in w.srv && InReach(sys, w, d, s, Counter(w.dev[d], s))
    ensures CanReach(sys, w, d, s)
  {
    hide Reaches;
  }

  lemma ShutAfterBuild(sys: System, w: World, d: Peer, s: Peer, d': Peer, s': Peer, ni: Nonce, iv: nat, reading: nat,
                       inRange: bool)
    requires Shaped(sys, w) && Couple(sys, d, s) && !Open(sys, w, d, s) && d' in sys.devices
    ensures !Open(sys, AfterBuild(sys, w, d', s', ni, iv, reading, inRange), d, s)
  {
    hide ValidSystem, Reaches, CanReach;
    var next := AfterBuild(sys, w, d', s', ni, iv, reading, inRange);
    CanReachStill(sys, w, next, d, s);
    if b :| InFlight(sys, next, d, s, b) && d !in w.srv[s].log.blocked {
      FlightAfterBuild(sys, w, d, s, d', s', ni, iv, reading, inRange, b);
      if !InFlight(sys, w, d, s, b) { ReachableNow(sys, w, d, s); }
    }
  }

  /** An acceptance of d needs a body of d in flight. */
  lemma AcceptanceWasInFlight(sys: System, w: World, d: Peer, s: Peer, m: Delivery)
    requires Inv(sys, w) && Couple(sys, d, s) && CanSend(sys, w.wire, m.m1.body)
    requires var out := HandleAt(sys, w, s, m).1; out.AuthResult? && out.peer == d
    ensures InFlight(sys, w, d, s, m.m1.body) && d !in w.srv[s].log.blocked
  {
    hide HandleDelivery, ReadingsAfter, ValidSystem, WireOk, AllCaused, AcceptancesDiffer, AllRemembered, DevicesOk,
         AgreementsDiffer, AllAhead, ValidEnrolment, Reaches;
    CoupleFacts(sys, d, s);
    AcceptedBody(sys, w, s, m);
    HandleEffect(sys.servers[s], w.srv[s], m);
    var out := HandleAt(sys, w, s, m).1;
    ResolvesInReach(sys.servers[s], w.srv[s].log.last, m.resolveAt, d, out.key.epoch);
  }

  lemma ShutAfterM1(sys: System, w: World, d: Peer, s: Peer, s': Peer, m: Delivery)
    requires Inv(sys, w) && Couple(sys, d, s) && !Open(sys, w, d, s)
    requires s' in sys.servers && CanSend(sys, w.wire, m.m1.body)
    ensures !Open(sys, AfterM1(sys, w, s', m), d, s)
    ensures var out := HandleAt(sys, w, s', m).1;
            !(s' == s && out.AuthResult? && out.peer == d)
  {
    hide HandleDelivery, ReadingsAfter, ValidSystem, ValidEnrolment, CanSend;
    hide InFlight, AfterM1, Reaches, WireOk, AllCaused, AcceptancesDiffer, AllRemembered, DevicesOk,
         AgreementsDiffer, AllAhead;
    ServerIsValid(sys, s');
    var out := HandleAt(sys, w, s', m).1;
    if s' == s && out.AuthResult? && out.peer == d {
      AcceptanceWasInFlight(sys, w, d, s, m);
    }
    var next := AfterM1(sys, w, s', m);
    LastAfterM1(sys, w, d, s, s', m);
    CanReachStill(sys, w, next, d, s);
    if b :| InFlight(sys, next, d, s, b) {
      FlightAfterM1(sys, w, d, s, s', m, b);
    }
  }

  lemma LastAfterM1(sys: System, w: World, d: Peer, s: Peer, s': Peer, m: Delivery)
    requires Shaped(sys, w) && Couple(sys, d, s) && s' in sys.servers
    requires var out := HandleAt(sys, w, s', m).1;
             !(s' == s && out.AuthResult? && out.peer == d)
    ensures var next := AfterM1(sys, w, s', m);
            && Last(next.srv[s].log.last, d) == Last(w.srv[s].log.last, d)
            && w.srv[s].log.blocked <= next.srv[s].log.blocked && next.dev == w.dev
  {
    hide HandleDelivery, ReadingsAfter, ValidSystem, ValidEnrolment, Reaches;
    ServerIsValid(sys, s');
    HandleEffect(sys.servers[s'], w.srv[s'], m);
  }

  lemma FlightAfterM1(sys: System, w: World, d: Peer, s: Peer, s': Peer, m: Delivery, b: Body)
    requires Shaped(sys, w) && Couple(sys, d, s) && s' in sys.servers
    requires var out := HandleAt(sys, w, s', m).1;
             !(s' == s && out.AuthResult? && out.peer == d)
    requires InFlight(sys, AfterM1(sys, w, s', m), d, s, b)
    ensures InFlight(sys, w, d, s, b)
  {
    hide HandleDelivery, ReadingsAfter, ValidSystem, ValidEnrolment, CounterServer, Reaches;
    LastAfterM1(sys, w, d, s, s', m);
    ServerIsValid(sys, s');
    ReplyIsBound(sys.servers[s'], w.srv[s'], m);
  }

  lemma ReplyIsBound(c: ServerConfig, st: ServerState, m: Delivery)
    requires ValidEnrolment(c.en)
    ensures var out := HandleDelivery(c, st, m).1;
            out.AuthResult? ==> out.response.body.Sealed? && out.response.body.aad.Bound?
  {
    hide HandleDelivery, ValidEnrolment;
    HandleEffect(c, st, m);
  }

  lemma ShutAfterM2(sys: System, w: World, d: Peer, s: Peer, d': Peer, m2: Message2, late: bool)
    requires Inv(sys, w) && Couple(sys, d, s) && !Open(sys, w, d, s) && d' in sys.devices
    ensures !Open(sys, AfterM2(sys, w, d', m2, late), d, s)
  {
    hide Complete, ValidSystem, WireOk, AllCaused, AcceptancesDiffer, AllRemembered, DevicesOk, AgreementsDiffer,
         AllAhead;
    CompletesExactly(sys.devices[d'], w.dev[d'], m2, late);
    var next := AfterM2(sys, w, d', m2, late);
    CanReachStill(sys, w, next, d, s);
    hide CanReach;
    forall b ensures InFlight(sys, next, d, s, b) == InFlight(sys, w, d, s, b) {}
  }

  lemma StaysShut(sys: System, w: World, d: Peer, s: Peer, step: Step)
    requires Inv(sys, w) && Couple(sys, d, s) && !Open(sys, w, d, s) && step != Restart(d)
    ensures !Open(sys, Next(sys, w, step), d, s)
    ensures !AcceptsNow(sys, w, step, s, d)
  {
    hide ValidSystem, WireOk, AllCaused, AcceptancesDiffer, AllRemembered, DevicesOk, AgreementsDiffer, AllAhead,
         HandleAt, Build, Complete;
    var next := Next(sys, w, step);
    match step
    case BuildStep(d', s', ni, iv, reading, inRange) =>
      hide Open;
      if d' in sys.devices { ShutAfterBuild(sys, w, d, s, d', s', ni, iv, reading, inRange); }
    case DeliverM1(s', m) =>
      hide Open;
      if s' in sys.servers && CanSend(sys, w.wire, m.m1.body) { ShutAfterM1(sys, w, d, s, s', m); }
    case DeliverM2(d', m2, late) =>
      hide Open;
      if d' in sys.devices && CanSend(sys, w.wire, m2.body) { ShutAfterM2(sys, w, d, s, d', m2, late); }
    case _ =>
      CanReachStill(sys, w, next, d, s);
      hide CanReach;
      forall b ensures InFlight(sys, next, d, s, b) ==> InFlight(sys, w, d, s, b) {}
  }

  lemma {:induction false} ShutForGood(sys: System, w: World, d: Peer, s: Peer, steps: seq<Step>)
    requires Inv(sys, w) && Couple(sys, d, s) && !Open(sys, w, d, s)
    ensures var end := After(sys, w, steps);
            NoRestart(steps, d) ==>
              && Inv(sys, end) && !Open(sys, end, d, s) && |end.events| >= |w.events|
              && !AcceptsLater(sys, w, steps, s, d)
  {
    hide ValidSystem, WireOk, AllCaused, AcceptancesDiffer, AllRemembered, DevicesOk, AgreementsDiffer, AllAhead;
    hide Next, Open, AcceptsNow;
    if steps != [] && NoRestart(steps, d) {
      ShutForGood(sys, w, d, s, steps[..|steps|-1]);
      var before := After(sys, w, steps[..|steps|-1]);
      StepKeepsInv(sys, before, steps[|steps|-1]);
      StaysShut(sys, before, d, s, steps[|steps|-1]);
      LaterOrNow(sys, w, steps, s, d);
    }
  }

  /** A continuation without restarting the device, in which the server accepts it. */
  ghost predicate Reopens(sys: System, w: World, steps: seq<Step>, s: Peer, d: Peer)
    requires Shaped(sys, w)
  {
    NoRestart(steps, d) && AcceptsLater(sys, w, steps, s, d)
  }

  /** The exact threshold: some continuation, without restarting the device, has the
      server accept it if and only if it is not blocked and an M1 with an epoch in reach
      is still on the wire or can still be built. */
  lemma LockoutFrom(sys: System, w: World, d: Peer, s: Peer)
    requires Inv(sys, w) && Couple(sys, d, s)
    ensures (exists more :: Reopens(sys, w, more, s, d)) <==> Open(sys, w, d, s)
  {
    assert Shaped(sys, w);
    hide Inv, ValidSystem, Open, AcceptsLater, NoRestart;
    if Open(sys, w, d, s) {
      var more := OpenAccepts(sys, w, d, s);
      assert Reopens(sys, w, more, s, d);
    } else {
      forall more | NoRestart(more, d) ensures !AcceptsLater(sys, w, more, s, d) {
        ShutForGood(sys, w, d, s, more);
      }
    }
  }

  /** After any run, the threshold decides what can follow; and unless it was restarted,
      the device's counter is above the server's last accepted epoch. */
  lemma LockoutExactly(sys: System, steps: seq<Step>, d: Peer, s: Peer)
    requires ValidSystem(sys) && Couple(sys, d, s)
    ensures var w := Run(sys, steps);
            && d in w.dev && s in w.srv
            && (d !in w.restarted ==> Last(w.srv[s].log.last, d) < Counter(w.dev[d], s))
            && ((exists more :: Reopens(sys, w, more, s, d)) <==> Open(sys, w, d, s))
  {
    hide ValidSystem, Open, AcceptsLater, Run;
    RunKeepsInv(sys, steps);
    var w := Run(sys, steps);
    assert Ahead(sys, w.dev, w.restarted, w.srv, d, s);
    LockoutFrom(sys, w, d, s);
  }

  // ---- A restart ----------------------------------------------------------------------------

  lemma RestartEffect(sys: System, w: World, d: Peer)
    requires Shaped(sys, w) && d in sys.devices
    ensures Next(sys, w, Restart(d)) == w.(dev := w.dev[d := FRESH_DEVICE], restarted := w.restarted + {d})
  {
    hide ValidSystem;
  }

  /** A restart ends every lock-out but a block: the counter comes by every epoch again. */
  lemma RestartReopens(sys: System, w: World, d: Peer, s: Peer)
    requires Inv(sys, w) && Couple(sys, d, s)
    ensures var (next, c) := (Next(sys, w, Restart(d)), sys.servers[s]);
            && (Open(sys, next, d, s) <==>
                  d !in w.srv[s].log.blocked &&
                  ((exists b :: InFlight(sys, w, d, s, b)) || exists epoch: nat :: InReach(sys, w, d, s, epoch)))
            && (!c.strategy.TimeMemory? && Tolerance(c) >= 1 ==>
                (Open(sys, next, d, s) <==> d !in w.srv[s].log.blocked))
  {
    hide ValidSystem, WireOk, AllCaused, AcceptancesDiffer, AllRemembered, DevicesOk, AgreementsDiffer, AllAhead;
    hide Next;
    RestartEffect(sys, w, d);
    var next := Next(sys, w, Restart(d));
    if !sys.servers[s].strategy.TimeMemory? && Tolerance(sys.servers[s]) >= 1 {
      assert InReach(sys, w, d, s, (Last(w.srv[s].log.last, d) + 1) as nat);
    }
    hide Reaches;
    forall epoch: nat ensures InReach(sys, next, d, s, epoch) == InReach(sys, w, d, s, epoch) {}
    forall b ensures InFlight(sys, next, d, s, b) == InFlight(sys, w, d, s, b) {}
  }

  /** The device's next message, built and delivered. */
  ghost function TryOne(sys: System, w: World, d: Peer, s: Peer): (next: World)
    requires Shaped(sys, w) && Couple(sys, d, s)
    ensures Shaped(sys, next)
  {
    hide ValidSystem, Next;
    var none := Nonce([]);
    Next(sys, Next(sys, w, BuildNow(d, s, none, 0)), Deliver1(sys, d, s, none, none, 0, 0, Counter(w.dev[d], s)))
  }

  /** n messages, built and delivered one after the other. */
  ghost function TryMany(sys: System, w: World, d: Peer, s: Peer, n: nat): (next: World)
    requires Shaped(sys, w) && Couple(sys, d, s)
    ensures Shaped(sys, next)
  {
    hide ValidSystem;
    if n == 0 then w else TryOne(sys, TryMany(sys, w, d, s, n - 1), d, s)
  }

  /** Only n builds happened: no server changed, and nothing was accepted. */
  predicate OnlyBuilt(w: World, next: World, d: Peer, s: Peer, n: nat) {
    && next.srv == w.srv && d in w.dev && d in next.dev && next.dev[d].log == w.dev[d].log
    && Counter(next.dev[d], s) == Counter(w.dev[d], s) + n
    && |next.events| == |w.events| + n && next.events[..|w.events|] == w.events
    && forall k :: |w.events| <= k < |next.events| ==> next.events[k].Started?
  }

  lemma RefusedDelivery(sys: System, w: World, d: Peer, s: Peer, b: Body, nj: Nonce, iv: nat)
    requires Shaped(sys, w) && Couple(sys, d, s) && d !in w.srv[s].log.blocked
    requires b in w.wire && b.Sealed? && b.key == PairRoot(sys, d, s) && b.aad.NoAad? && b.plain.Plain1?
    requires b.plain.pid == H2(sys.lam[d], b.plain.epoch) && !InReach(sys, w, d, s, b.plain.epoch)
    ensures var next := Next(sys, w, DeliverM1(s, Deliver(b, nj, iv)));
            next.srv == w.srv && next.dev == w.dev && next.events == w.events
  {
    hide ValidSystem, HandleDelivery, ReadingsAfter, ValidEnrolment, CanSend, Reaches;
    CoupleFacts(sys, d, s);
    OnWire(sys, w.wire, b);
    DeliveryHandled(sys.servers[s], w.srv[s], d, b, nj, iv);
    assert w.srv[s := w.srv[s]] == w.srv;
  }

  lemma TriesOne(sys: System, w: World, d: Peer, s: Peer)
    requires Shaped(sys, w) && Couple(sys, d, s) && d !in w.srv[s].log.blocked && s !in w.dev[d].log.blocked
    requires Counter(w.dev[d], s) <= Last(w.srv[s].log.last, d)
    ensures OnlyBuilt(w, TryOne(sys, w, d, s), d, s, 1)
  {
    hide ValidSystem, Next, CounterServer;
    NextMessage(sys, w, d, s, Nonce([]), 0);
    var w1 := Next(sys, w, BuildNow(d, s, Nonce([]), 0));
    RefusedDelivery(sys, w1, d, s, Body1(sys, d, s, Nonce([]), 0, Counter(w.dev[d], s)), Nonce([]), 0);
  }

  lemma BuiltAdds(w: World, before: World, next: World, d: Peer, s: Peer, n: nat)
    requires OnlyBuilt(w, before, d, s, n) && OnlyBuilt(before, next, d, s, 1)
    ensures OnlyBuilt(w, next, d, s, n + 1)
  {
    assert next.events[..|w.events|] == before.events[..|w.events|];
    forall k | |w.events| <= k < |next.events| ensures next.events[k].Started? {
      if k < |before.events| { assert next.events[k] == before.events[k]; }
    }
  }

  lemma TryKeepsInv(sys: System, w: World, d: Peer, s: Peer)
    requires Inv(sys, w) && Couple(sys, d, s)
    ensures Inv(sys, TryOne(sys, w, d, s))
  {
    InvShaped(sys, w);
    hide ValidSystem, Inv, Next, Body1;
    var none := Nonce([]);
    StepKeepsInv(sys, w, BuildNow(d, s, none, 0));
    StepKeepsInv(sys, Next(sys, w, BuildNow(d, s, none, 0)),
                 Deliver1(sys, d, s, none, none, 0, 0, Counter(w.dev[d], s)));
  }

  lemma {:induction false} TriesMany(sys: System, w: World, d: Peer, s: Peer, n: nat)
    requires Inv(sys, w) && Couple(sys, d, s) && d !in w.srv[s].log.blocked && s !in w.dev[d].log.blocked
    requires Counter(w.dev[d], s) + n <= Last(w.srv[s].log.last, d) + 1
    ensures Inv(sys, TryMany(sys, w, d, s, n)) && OnlyBuilt(w, TryMany(sys, w, d, s, n), d, s, n)
  {
    hide ValidSystem, TryOne, WireOk, AllCaused, AcceptancesDiffer, AllRemembered, DevicesOk, AgreementsDiffer,
         AllAhead;
    if n > 0 {
      TriesMany(sys, w, d, s, n - 1);
      TriesOne(sys, TryMany(sys, w, d, s, n - 1), d, s);
      TryKeepsInv(sys, TryMany(sys, w, d, s, n - 1), d, s);
      BuiltAdds(w, TryMany(sys, w, d, s, n - 1), TryMany(sys, w, d, s, n), d, s, n - 1);
    }
  }

  /** With l the last accepted epoch, a restarted device that is not blocked has its first
      l + 1 messages refused, one after the other and without further effect on the server;
      the next handshake is accepted if the server reaches epoch l + 1, as a scan or table
      does exactly when F >= 1. */
  lemma RestartCatchesUp(sys: System, w: World, d: Peer, s: Peer, ni: Nonce, nj: Nonce, iv: nat, iv2: nat)
    requires Inv(sys, w) && Couple(sys, d, s) && d !in w.srv[s].log.blocked
    ensures var l := Last(w.srv[s].log.last, d);
            var restarted := Next(sys, w, Restart(d));
            var end := TryMany(sys, restarted, d, s, l + 1);
            && OnlyBuilt(restarted, end, d, s, l + 1) && end.srv == w.srv && Counter(end.dev[d], s) == l + 1
            && (InReach(sys, end, d, s, l + 1) ==> Succeeds(sys, end, d, s, ni, nj, iv, iv2))
            && (!sys.servers[s].strategy.TimeMemory? ==>
                  (InReach(sys, end, d, s, l + 1) <==> Tolerance(sys.servers[s]) >= 1))
  {
    hide ValidSystem, WireOk, AllCaused, AcceptancesDiffer, AllRemembered, DevicesOk, AgreementsDiffer, AllAhead;
    hide Next, TryMany, Succeeds;
    RestartKeepsAll(sys, w, d);
    RestartEffect(sys, w, d);
    var l := Last(w.srv[s].log.last, d);
    var restarted := Next(sys, w, Restart(d));
    TriesMany(sys, restarted, d, s, l + 1);
    var end := TryMany(sys, restarted, d, s, l + 1);
    if InReach(sys, end, d, s, l + 1) { NextSucceeds(sys, end, d, s, ni, nj, iv, iv2); }
  }

  lemma RestartKeepsAll(sys: System, w: World, d: Peer)
    requires Inv(sys, w)
    ensures Inv(sys, Next(sys, w, Restart(d)))
  {
    StepKeepsInv(sys, w, Restart(d));
  }

  /** The next handshake, delivered in coverage, ends with one key on both sides. */
  ghost predicate Succeeds(sys: System, w: World, d: Peer, s: Peer, ni: Nonce, nj: Nonce, iv: nat, iv2: nat)
    requires Shaped(sys, w) && Couple(sys, d, s)
  {
    var epoch := Counter(w.dev[d], s);
    var key := Session(PairRoot(sys, d, s), ni, nj, epoch);
    After(sys, w, Handshake(sys, d, s, ni, nj, iv, iv2, epoch)).events
    == w.events + [Started(d, s, epoch, ni), Accepted(s, d, key), Agreed(d, s, key)]
  }

  lemma NextSucceeds(sys: System, w: World, d: Peer, s: Peer, ni: Nonce, nj: Nonce, iv: nat, iv2: nat)
    requires Inv(sys, w) && Couple(sys, d, s)
    requires d !in w.srv[s].log.blocked && s !in w.dev[d].log.blocked
    requires InReach(sys, w, d, s, Counter(w.dev[d], s))
    ensures Succeeds(sys, w, d, s, ni, nj, iv, iv2)
  {
    hide ValidSystem, Inv, After, Handshake, Reaches;
    NextHandshakeSucceeds(sys, w, d, s, ni, nj, iv, iv2);
  }

  // ---- Dropped messages ---------------------------------------------------------------------

  /** n times: the device builds an M1 for the server and the adversary destroys it. */
  function DropRun(sys: System, d: Peer, s: Peer, first: nat, n: nat): seq<Step>
    requires d in sys.lam && s in sys.lam
  {
    if n == 0 then []
    else
      DropRun(sys, d, s, first, n - 1)
      + [BuildNow(d, s, Nonce([]), 0)] + [Drop(Body1(sys, d, s, Nonce([]), 0, first + n - 1))]
  }

  /** As w was, but for n epochs used up, and perhaps for messages lost. */
  predicate Lost(w: World, next: World, d: Peer, s: Peer, n: nat) {
    next.wire <= w.wire && next.srv == w.srv && d in w.dev && d in next.dev
    && Counter(next.dev[d], s) == Counter(w.dev[d], s) + n && next.dev[d].log == w.dev[d].log
  }

  /** The device's next message, built and destroyed. */
  ghost function LoseOne(sys: System, w: World, d: Peer, s: Peer): (next: World)
    requires Shaped(sys, w) && Couple(sys, d, s)
    ensures Shaped(sys, next)
  {
    hide ValidSystem, Next;
    Next(sys, Next(sys, w, BuildNow(d, s, Nonce([]), 0)), Drop(Body1(sys, d, s, Nonce([]), 0, Counter(w.dev[d], s))))
  }

  lemma LosesOne(sys: System, w: World, d: Peer, s: Peer)
    requires Shaped(sys, w) && Couple(sys, d, s) && s !in w.dev[d].log.blocked
    ensures Lost(w, LoseOne(sys, w, d, s), d, s, 1)
  {
    hide ValidSystem, Body1, Build;
    NextMessage(sys, w, d, s, Nonce([]), 0);
  }

  lemma LoseKeepsInv(sys: System, w: World, d: Peer, s: Peer)
    requires Inv(sys, w) && Couple(sys, d, s)
    ensures Inv(sys, LoseOne(sys, w, d, s))
  {
    InvShaped(sys, w);
    hide ValidSystem, Inv, Next, Body1;
    StepKeepsInv(sys, w, BuildNow(d, s, Nonce([]), 0));
    StepKeepsInv(sys, Next(sys, w, BuildNow(d, s, Nonce([]), 0)),
                 Drop(Body1(sys, d, s, Nonce([]), 0, Counter(w.dev[d], s))));
  }

  lemma LostAdds(w: World, before: World, next: World, d: Peer, s: Peer, n: nat)
    requires Lost(w, before, d, s, n) && Lost(before, next, d, s, 1)
    ensures Lost(w, next, d, s, n + 1)
  {}

  lemma RunsOneMore(sys: System, w: World, d: Peer, s: Peer, n: nat)
    requires Shaped(sys, w) && Couple(sys, d, s)
    requires var before := After(sys, w, DropRun(sys, d, s, Counter(w.dev[d], s), n));
             Counter(before.dev[d], s) == Counter(w.dev[d], s) + n
    ensures After(sys, w, DropRun(sys, d, s, Counter(w.dev[d], s), n + 1))
         == LoseOne(sys, After(sys, w, DropRun(sys, d, s, Counter(w.dev[d], s), n)), d, s)
  {
    hide ValidSystem, After, Next, Body1;
    var first := Counter(w.dev[d], s);
    var steps := DropRun(sys, d, s, first, n);
    var build := BuildNow(d, s, Nonce([]), 0);
    AfterOne(sys, w, steps, build);
    AfterOne(sys, w, steps + [build], Drop(Body1(sys, d, s, Nonce([]), 0, first + n)));
  }

  /** The world after n of the device's next messages are lost. */
  ghost function LoseMany(sys: System, w: World, d: Peer, s: Peer, n: nat): (next: World)
    requires Shaped(sys, w) && Couple(sys, d, s)
    ensures Shaped(sys, next)
  {
    hide ValidSystem;
    if n == 0 then w else LoseOne(sys, LoseMany(sys, w, d, s, n - 1), d, s)
  }

  lemma {:induction false} LosesMany(sys: System, w: World, d: Peer, s: Peer, n: nat)
    requires Inv(sys, w) && Couple(sys, d, s) && s !in w.dev[d].log.blocked
    ensures Inv(sys, LoseMany(sys, w, d, s, n)) && Lost(w, LoseMany(sys, w, d, s, n), d, s, n)
  {
    hide ValidSystem, LoseOne, WireOk, AllCaused, AcceptancesDiffer, AllRemembered, DevicesOk, AgreementsDiffer,
         AllAhead;
    if n > 0 {
      LosesMany(sys, w, d, s, n - 1);
      LosesOne(sys, LoseMany(sys, w, d, s, n - 1), d, s);
      LoseKeepsInv(sys, LoseMany(sys, w, d, s, n - 1), d, s);
      LostAdds(w, LoseMany(sys, w, d, s, n - 1), LoseMany(sys, w, d, s, n), d, s, n - 1);
    }
  }

  lemma NoneLost(sys: System, w: World, d: Peer, s: Peer)
    requires Shaped(sys, w) && Couple(sys, d, s)
    ensures After(sys, w, DropRun(sys, d, s, Counter(w.dev[d], s), 0)) == LoseMany(sys, w, d, s, 0)
  {
    hide ValidSystem;
  }

  lemma OneMoreLost(sys: System, w: World, d: Peer, s: Peer, n: nat)
    requires Shaped(sys, w) && Couple(sys, d, s) && n > 0
    ensures LoseMany(sys, w, d, s, n) == LoseOne(sys, LoseMany(sys, w, d, s, n - 1), d, s)
  {
    hide ValidSystem, LoseOne;
  }

  lemma {:induction false} DropRunLoses(sys: System, w: World, d: Peer, s: Peer, n: nat)
    requires Inv(sys, w) && Couple(sys, d, s) && s !in w.dev[d].log.blocked
    ensures After(sys, w, DropRun(sys, d, s, Counter(w.dev[d], s), n)) == LoseMany(sys, w, d, s, n)
  {
    hide ValidSystem, LoseOne, WireOk, AllCaused, AcceptancesDiffer, AllRemembered, DevicesOk, AgreementsDiffer,
         AllAhead;
    hide After, DropRun, LoseMany;
    if n == 0 {
      NoneLost(sys, w, d, s);
    } else {
      DropRunLoses(sys, w, d, s, n - 1);
      LosesMany(sys, w, d, s, n - 1);
      RunsOneMore(sys, w, d, s, n - 1);
      OneMoreLost(sys, w, d, s, n);
    }
  }

  lemma BuiltBelow(sys: System, w: World, d: Peer, s: Peer, epoch: nat, ni: Nonce)
    requires Shaped(sys, w) && DevicesOk(sys, w.dev, w.restarted, w.events) && Couple(sys, d, s) && d !in w.restarted
    requires Started(d, s, epoch, ni) in w.events
    ensures epoch < Counter(w.dev[d], s)
  {
    hide ValidSystem;
    assert Below(CountsOn(sys, w.restarted, d), w.dev[d], d, Started(d, s, epoch, ni));
  }

  /** Every message of the device on the wire has an epoch below its counter. */
  lemma InStepNoneInFlight(sys: System, w: World, d: Peer, s: Peer, b: Body)
    requires Inv(sys, w) && Couple(sys, d, s) && InStep(sys, w, d, s) && d !in w.restarted
    ensures !InFlight(sys, w, d, s, b)
  {
    hide ValidSystem, AllCaused, AcceptancesDiffer, AllRemembered, AgreementsDiffer, AllAhead;
    if InFlight(sys, w, d, s, b) {
      assert BodyOk(sys, w.events, b, d, s);
      BuiltBelow(sys, w, d, s, b.plain.epoch, b.plain.ni);
    }
  }

  /** From a start in step, before any success or right after one: n messages dropped
      lock the device out of a scan or table exactly from n = F on, and out of a rainbow
      table exactly when they use up the last epoch it covers. */
  lemma DropsLockOut(sys: System, w: World, d: Peer, s: Peer, n: nat)
    requires Inv(sys, w) && Couple(sys, d, s) && InStep(sys, w, d, s) && d !in w.restarted
    ensures var c := sys.servers[s];
            var end := After(sys, w, DropRun(sys, d, s, Counter(w.dev[d], s), n));
            (exists more :: Reopens(sys, end, more, s, d)) <==>
              if c.strategy.TimeMemory? then
                exists epoch :: Counter(w.dev[d], s) + n <= epoch < c.strategy.lifetime
                                && Rainbow.PointCovered(c.en, c.strategy.lifetime, c.strategy.covered, d, epoch)
              else n < Tolerance(c)
  {
    DropRunLoses(sys, w, d, s, n);
    LosesMany(sys, w, d, s, n);
    var end := After(sys, w, DropRun(sys, d, s, Counter(w.dev[d], s), n));
    LockoutFrom(sys, end, d, s);
    hide Reopens, Inv, After, DropRun, Rainbow.PointCovered, CanReach;
    DroppedIsOpen(sys, w, end, d, s, n);
  }

  lemma DroppedIsOpen(sys: System, w: World, end: World, d: Peer, s: Peer, n: nat)
    requires Inv(sys, w) && Inv(sys, end) && Couple(sys, d, s) && InStep(sys, w, d, s) && Lost(w, end, d, s, n)
    requires d !in w.restarted
    ensures var c := sys.servers[s];
            Open(sys, end, d, s) <==>
              if c.strategy.TimeMemory? then
                exists epoch :: Counter(w.dev[d], s) + n <= epoch < c.strategy.lifetime
                                && Rainbow.PointCovered(c.en, c.strategy.lifetime, c.strategy.covered, d, epoch)
              else n < Tolerance(c)
  {
    hide Rainbow.PointCovered, CanReach;
    CanReachExactly(sys, end, d, s);
    hide Inv;
    forall b ensures !InFlight(sys, end, d, s, b) {
      InStepNoneInFlight(sys, w, d, s, b);
    }
  }

  /** The two starts: nothing exchanged yet, and one handshake done. */
  lemma StartsInStep(sys: System, d: Peer, s: Peer, ni: Nonce, nj: Nonce, iv: nat, iv2: nat)
    requires ValidSystem(sys) && Couple(sys, d, s)
    ensures Inv(sys, InitialWorld(sys)) && InStep(sys, InitialWorld(sys), d, s)
    ensures d !in InitialWorld(sys).restarted
    ensures var w := After(sys, InitialWorld(sys), Handshake(sys, d, s, ni, nj, iv, iv2, 0));
            InReach(sys, InitialWorld(sys), d, s, 0) ==> Inv(sys, w) && InStep(sys, w, d, s)
  {
    hide ValidSystem, After, Inv, Handshake;
    InitialInv(sys);
    RunKeepsInv(sys, Handshake(sys, d, s, ni, nj, iv, iv2, 0));
    if InReach(sys, InitialWorld(sys), d, s, 0) {
      NextHandshakeSucceeds(sys, InitialWorld(sys), d, s, ni, nj, iv, iv2);
    }
  }

  /** A rainbow server never loses step with a device that is not restarted: after any run,
      whatever was dropped, the next handshake succeeds if its point is covered, up to the
      lifetime. */
  lemma RainbowKeepsStep(sys: System, steps: seq<Step>, d: Peer, s: Peer, ni: Nonce, nj: Nonce, iv: nat, iv2: nat)
    requires ValidSystem(sys) && Couple(sys, d, s) && sys.servers[s].strategy.TimeMemory?
    requires d !in Run(sys, steps).restarted
    ensures var (w, c) := (Run(sys, steps), sys.servers[s]);
            var epoch := Counter(w.dev[d], s);
            && (InReach(sys, w, d, s, epoch) <==>
                  epoch < c.strategy.lifetime
                      && Rainbow.PointCovered(c.en, c.strategy.lifetime, c.strategy.covered, d, epoch))
            && (InReach(sys, w, d, s, epoch) && d !in w.srv[s].log.blocked && s !in w.dev[d].log.blocked ==>
                  Succeeds(sys, w, d, s, ni, nj, iv, iv2))
  {
    hide ValidSystem, Run, After, Handshake, Rainbow.PointCovered;
    RunKeepsInv(sys, steps);
    var w := Run(sys, steps);
    assert Ahead(sys, w.dev, w.restarted, w.srv, d, s);
    NextInReach(sys, w, d, s);
    hide Reaches;
    if InReach(sys, w, d, s, Counter(w.dev[d], s)) && d !in w.srv[s].log.blocked && s !in w.dev[d].log.blocked {
      NextSucceeds(sys, w, d, s, ni, nj, iv, iv2);
    }
  }
}
