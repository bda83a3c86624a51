/** When a server with clock epochs accepts one M1 again: the exact condition, runs in
    which it happens, and the runs in which it cannot. */
module ClockReplays {
  import opened Terms
  import opened SessionLogs
  import opened CounterResolvers
  import opened ClockResolvers
  import opened Entities
  import opened Network
  import opened Theorems

  // ---- The exact condition ---------------------------------------------------------------

  /** The M1 that carries this (peer, epoch, N_i) to a server. */
  function Carrier(c: ServerConfig, p: Peer, epoch: nat, ni: Nonce, iv: nat): Message1
    requires p in c.en.secret
  {
    var pid := H2(c.en.secret[p], epoch);
    Message1(pid, iv, Sealed(Root(c.en.secret[p], c.lam), iv, Plain1(pid, ni, epoch), NoAad))
  }

  /** ... delivered in coverage, at these readings. */
  predicate Carries(c: ServerConfig, p: Peer, epoch: nat, ni: Nonce, m: Delivery)
    requires p in c.en.secret
  {
    m.m1 == Carrier(c, p, epoch, ni, m.m1.iv) && m.inRange
  }

  /** What a clock server makes of a carrier in its window, in coverage and unblocked. */
  lemma CarrierHandled(c: ServerConfig, st: ServerState, p: Peer, epoch: nat, ni: Nonce, m: Delivery)
    requires ValidEnrolment(c.en) && c.strategy.Clock? && p in c.en.secret && p !in st.log.blocked
    requires Carries(c, p, epoch, ni, m)
    requires m.resolveAt - c.strategy.drift <= epoch <= m.resolveAt + c.strategy.drift
    ensures var (next, out) := HandleDelivery(c, st, m);
            && ReadsClock(c, st, m)
            && (out.AuthResult? <==>
                  epoch + c.strategy.drift < m.acceptAt || NonceTag(p, ni) !in TagsAt(st.nonces, epoch))
            && (out.AuthResult? ==>
                  && out.peer == p && out.key == Session(Root(c.en.secret[p], c.lam), ni, m.nj, epoch)
                  && next.log.blocked == st.log.blocked)
  {
    assert Owner(c.en, c.en.secret[p]) == Some(p);
    assert Resolve(c, st.log.last, m.resolveAt, m.m1.pid) == Found(p, epoch);
    hide ValidEnrolment, Resolve, Handle, NonceTag;
    AcceptsExactly(c, st, m.m1, m.nj, m.iv, m.inRange, m.resolveAt, m.acceptAt);
    HandleEffect(c, st, m);
  }

  /** A carrier reaches a clock server in its window, in coverage and unblocked. */
  ghost predicate Arrives(sys: System, w: World, s: Peer, p: Peer, epoch: nat, ni: Nonce, m: Delivery)
    requires Shaped(sys, w)
  {
    && s in sys.servers && sys.servers[s].strategy.Clock? && p in sys.servers[s].en.secret
    && p !in w.srv[s].log.blocked && Carries(sys.servers[s], p, epoch, ni, m)
    && m.resolveAt - sys.servers[s].strategy.drift <= epoch <= m.resolveAt + sys.servers[s].strategy.drift
  }

  /** Whatever the clock did before: it is accepted exactly when this accept reading is
      beyond the epoch's window, or every earlier acceptance that left the same tag has
      been followed by one that was. */
  lemma AcceptedByTag(sys: System, w: World, s: Peer, p: Peer, epoch: nat, ni: Nonce, m: Delivery)
    requires Inv(sys, w) && Arrives(sys, w, s, p, epoch, ni, m)
    ensures var drift := sys.servers[s].strategy.drift;
            HandleAt(sys, w, s, m).1.AuthResult? <==>
              epoch + drift < m.acceptAt
              || forall i :: !Held(drift, w.events, w.readings, s, epoch, NonceTag(p, ni), i)
  {
    hide ValidSystem, WireOk, AllCaused, AcceptancesDiffer, DevicesOk, AgreementsDiffer, AllAhead, HandleDelivery;
    hide NonceTag, Held, ReadsClock;
    ServerIsValid(sys, s);
    var c := sys.servers[s];
    CarrierHandled(c, w.srv[s], p, epoch, ni, m);
    assert CacheIs(c.strategy.drift, w.srv[s].nonces, w.readings, w.events, s, epoch, NonceTag(p, ni));
  }

  /** Event i is an acceptance of this triple by s. */
  predicate AcceptedTriple(events: seq<Event>, s: Peer, p: Peer, epoch: nat, ni: Nonce, i: int) {
    && 0 <= i < |events| && events[i].Accepted? && events[i].server == s && events[i].device == p
    && events[i].key.epoch == epoch && events[i].key.ni == ni
  }

  predicate NonceLength(events: seq<Event>, s: Peer, n: nat) {
    forall e :: e in events && e.Accepted? && e.server == s ==> |e.key.ni.bytes| == n
  }

  lemma TripleOfTag(sys: System, w: World, s: Peer, p: Peer, epoch: nat, ni: Nonce, i: nat)
    requires Inv(sys, w) && s in sys.servers && p in sys.servers[s].en.secret && i < |w.events|
    requires Separate(sys.servers[s].en.secret.Keys) || NonceLength(w.events, s, |ni.bytes|)
    ensures LeavesTag(w.events[i], s, epoch, NonceTag(p, ni)) <==> AcceptedTriple(w.events, s, p, epoch, ni, i)
  {
    hide ValidSystem, WireOk, AllCaused, AcceptancesDiffer, DevicesOk, AgreementsDiffer, AllAhead, CacheIs, NonceTag;
    var e := w.events[i];
    assert e in w.events;
    if LeavesTag(e, s, epoch, NonceTag(p, ni)) {
      assert Remembers(sys.servers[s], w.srv[s], w.readings, w.events, s);
      SharedTagExtends(e.device, e.key.ni, p, ni);
    }
  }

  /** When no enrolled identity extends another, or this server's nonces have one length: an
      M1 that still resolves is accepted, whether for the first time or again, exactly when
      every earlier acceptance of its (peer, epoch, N_i) has been followed by an accept
      reading beyond the epoch's window, this request's own included. */
  lemma AcceptedAgainExactly(sys: System, w: World, s: Peer, p: Peer, epoch: nat, ni: Nonce, m: Delivery)
    requires Inv(sys, w) && Arrives(sys, w, s, p, epoch, ni, m)
    requires Separate(sys.servers[s].en.secret.Keys) || NonceLength(w.events, s, |ni.bytes|)
    ensures var drift := sys.servers[s].strategy.drift;
            HandleAt(sys, w, s, m).1.AuthResult? <==>
              forall i :: AcceptedTriple(w.events, s, p, epoch, ni, i) ==>
                epoch + drift < m.acceptAt || !Within(w.readings, s, i, epoch + drift)
  {
    InvShaped(sys, w);
    AcceptedByTag(sys, w, s, p, epoch, ni, m);
    var drift := sys.servers[s].strategy.drift;
    hide HandleAt, ValidSystem, NonceTag, Within, LeavesTag, Separate, NonceLength;
    forall i ensures Held(drift, w.events, w.readings, s, epoch, NonceTag(p, ni), i) <==>
                       AcceptedTriple(w.events, s, p, epoch, ni, i) && Within(w.readings, s, i, epoch + drift)
    {
      if 0 <= i < |w.events| { TripleOfTag(sys, w, s, p, epoch, ni, i); }
    }
  }

  lemma InvShaped(sys: System, w: World)
    requires Inv(sys, w)
    ensures Shaped(sys, w)
  {}

  lemma StillHeld(drift: nat, events: seq<Event>, readings: seq<Reading>, s: Peer, p: Peer, epoch: nat, ni: Nonce,
                  k: nat, top: nat)
    requires AcceptedTriple(events, s, p, epoch, ni, k) && Within(readings, s, -1, top) && top <= epoch + drift
    ensures Held(drift, events, readings, s, epoch, NonceTag(p, ni), k)
  {
    hide NonceTag;
  }

  /** With no accept reading above this one's so far, and for any identities: an M1 accepted
      before is accepted again exactly when this reading is beyond the epoch's window. */
  lemma AcceptedAgainByOwnReading(sys: System, w: World, s: Peer, p: Peer, epoch: nat, ni: Nonce, m: Delivery, k: nat)
    requires Inv(sys, w) && Arrives(sys, w, s, p, epoch, ni, m) && AcceptedTriple(w.events, s, p, epoch, ni, k)
    requires Within(w.readings, s, -1, m.acceptAt)
    ensures HandleAt(sys, w, s, m).1.AuthResult? <==> epoch < m.acceptAt - sys.servers[s].strategy.drift
  {
    InvShaped(sys, w);
    hide HandleAt, ValidSystem, NonceTag, Inv;
    AcceptedByTag(sys, w, s, p, epoch, ni, m);
    var drift := sys.servers[s].strategy.drift;
    hide Arrives;
    if m.acceptAt <= epoch + drift { StillHeld(drift, w.events, w.readings, s, p, epoch, ni, k, m.acceptAt); }
  }

  // ---- Runs in which it happens ------------------------------------------------------------

  predicate ClockCouple(sys: System, d: Peer, s: Peer) {
    && Honest(sys, d, s) && sys.devices[d].usesClock && sys.servers[s].strategy.Clock?
    && s in sys.devices[d].secret && d in sys.servers[s].en.secret
    && d in sys.lam && s in sys.lam
  }

  lemma CoupleSecrets(sys: System, d: Peer, s: Peer)
    requires ValidSystem(sys) && ClockCouple(sys, d, s)
    ensures sys.devices[d].lam == sys.lam[d] && sys.devices[d].secret[s] == sys.lam[s]
    ensures ValidEnrolment(sys.servers[s].en) && sys.servers[s].lam == sys.lam[s]
    ensures sys.servers[s].en.secret[d] == sys.lam[d]
  {
    assert ValidDevice(sys, d, sys.devices[d]) && ValidServer(sys, s, sys.servers[s]);
  }

  function BuildAt(d: Peer, s: Peer, epoch: nat, ni: Nonce): Step {
    BuildStep(d, s, ni, 0, epoch, true)
  }

  function DeliverAt(sys: System, d: Peer, s: Peer, epoch: nat, ni: Nonce, nj: Nonce,
                     resolveAt: nat, acceptAt: nat): Step
    requires ClockCouple(sys, d, s)
  {
    DeliverM1(s, Delivery(Carrier(sys.servers[s], d, epoch, ni, 0), nj, 0, true, resolveAt, acceptAt))
  }

  function KeyAt(sys: System, d: Peer, s: Peer, epoch: nat, ni: Nonce, nj: Nonce): SessionKey
    requires ClockCouple(sys, d, s)
  {
    Session(PairRoot(sys, d, s), ni, nj, epoch)
  }

  /** Neither side has blocked the other, and this carrier is on the wire. */
  predicate OnTheWay(sys: System, w: World, d: Peer, s: Peer, epoch: nat, ni: Nonce)
    requires ClockCouple(sys, d, s)
  {
    s in w.srv && d !in w.srv[s].log.blocked && Carrier(sys.servers[s], d, epoch, ni, 0).body in w.wire
  }

  lemma BuildsCarrier(sys: System, w: World, d: Peer, s: Peer, epoch: nat, ni: Nonce)
    requires Shaped(sys, w) && ClockCouple(sys, d, s)
    requires s !in w.dev[d].log.blocked && d !in w.srv[s].log.blocked
    ensures var next := Next(sys, w, BuildAt(d, s, epoch, ni));
            && next.events == w.events + [Started(d, s, epoch, ni)] && next.srv == w.srv
            && next.dev[d].log == w.dev[d].log && OnTheWay(sys, next, d, s, epoch, ni) && w.wire <= next.wire
  {
    hide ValidSystem;
    CoupleSecrets(sys, d, s);
  }

  lemma DeliversCarrier(sys: System, w: World, d: Peer, s: Peer, epoch: nat, ni: Nonce, nj: Nonce, resolveAt: nat,
                        acceptAt: nat)
    requires Shaped(sys, w) && ClockCouple(sys, d, s) && OnTheWay(sys, w, d, s, epoch, ni)
    requires resolveAt - sys.servers[s].strategy.drift <= epoch <= resolveAt + sys.servers[s].strategy.drift
    requires epoch + sys.servers[s].strategy.drift < acceptAt || NonceTag(d, ni) !in TagsAt(w.srv[s].nonces, epoch)
    ensures var next := Next(sys, w, DeliverAt(sys, d, s, epoch, ni, nj, resolveAt, acceptAt));
            && next.events == w.events + [Accepted(s, d, KeyAt(sys, d, s, epoch, ni, nj))]
            && d !in next.srv[s].log.blocked && w.wire <= next.wire
            && forall e: nat, tag :: e != epoch && tag in TagsAt(next.srv[s].nonces, e) ==>
                 tag in TagsAt(w.srv[s].nonces, e) && acceptAt <= e + sys.servers[s].strategy.drift
  {
    hide ValidSystem, ValidEnrolment, HandleDelivery, ReadsClock, CanSend, NonceTag;
    CoupleSecrets(sys, d, s);
    var m := Delivery(Carrier(sys.servers[s], d, epoch, ni, 0), nj, 0, true, resolveAt, acceptAt);
    OnWire(sys, w.wire, m.m1.body);
    CarrierHandled(sys.servers[s], w.srv[s], d, epoch, ni, m);
    forall e: nat, tag { CacheEffect(sys.servers[s], w.srv[s], m, e, tag); }
  }

  /** Build, deliver at the last reading that has the epoch in its window, and deliver
      again while the clock ticks. */
  function TickRun(sys: System, d: Peer, s: Peer, epoch: nat, ni: Nonce, nj: Nonce, nj2: Nonce): seq<Step>
    requires ClockCouple(sys, d, s)
  {
    var last := epoch + sys.servers[s].strategy.drift;
    [BuildAt(d, s, epoch, ni), DeliverAt(sys, d, s, epoch, ni, nj, last, last),
     DeliverAt(sys, d, s, epoch, ni, nj2, last, last + 1)]
  }

  /** So no clock server, whatever its drift, authenticates injectively in all runs. */
  lemma ClockOutrun(sys: System, d: Peer, s: Peer, epoch: nat, ni: Nonce, nj: Nonce, nj2: Nonce)
    requires ValidSystem(sys) && ClockCouple(sys, d, s)
    ensures Run(sys, TickRun(sys, d, s, epoch, ni, nj, nj2)).events
         == [Started(d, s, epoch, ni), Accepted(s, d, KeyAt(sys, d, s, epoch, ni, nj)),
             Accepted(s, d, KeyAt(sys, d, s, epoch, ni, nj2))]
  {
    hide ValidSystem, Next, Carrier, After, KeyAt;
    var w0, steps := InitialWorld(sys), TickRun(sys, d, s, epoch, ni, nj, nj2);
    StartShaped(sys);
    ThreeSteps(sys, w0, steps[0], steps[1], steps[2]);
    BuildsCarrier(sys, w0, d, s, epoch, ni);
    var last := epoch + sys.servers[s].strategy.drift;
    var w1 := Next(sys, w0, steps[0]);
    DeliversCarrier(sys, w1, d, s, epoch, ni, nj, last, last);
    DeliversCarrier(sys, Next(sys, w1, steps[1]), d, s, epoch, ni, nj2, last, last + 1);
  }

  /** Build for two epochs further apart than the drift; deliver the first, the second, and
      the first again, each while the clock reads its epoch, both times it is read. */
  function BackRun(sys: System, d: Peer, s: Peer, epoch: nat, later: nat, ni: Nonce, nj: Nonce, nj2: Nonce): seq<Step>
    requires ClockCouple(sys, d, s)
  {
    [BuildAt(d, s, epoch, ni), BuildAt(d, s, later, ni), DeliverAt(sys, d, s, epoch, ni, nj, epoch, epoch),
     DeliverAt(sys, d, s, later, ni, nj, later, later), DeliverAt(sys, d, s, epoch, ni, nj2, epoch, epoch)]
  }

  lemma OneLonger<T>(a: T, b: T, c: T, d: T, e: T)
    ensures [a, b, c] + [d] == [a, b, c, d] && [a, b, c, d] + [e] == [a, b, c, d, e]
  {}

  lemma FiveSteps(sys: System, w: World, a: Step, b: Step, c: Step, d: Step, e: Step)
    requires Shaped(sys, w)
    ensures After(sys, w, [a, b, c, d, e]) == Next(sys, Next(sys, Next(sys, Next(sys, Next(sys, w, a), b), c), d), e)
  {
    hide Next, ValidSystem, After;
    ThreeSteps(sys, w, a, b, c);
    AfterOne(sys, w, [a, b, c], d);
    AfterOne(sys, w, [a, b, c, d], e);
    OneLonger(a, b, c, d, e);
  }

  /** A clock that goes back lets the first one in twice. */
  lemma ClockGoesBack(sys: System, d: Peer, s: Peer, epoch: nat, later: nat, ni: Nonce, nj: Nonce, nj2: Nonce)
    requires ValidSystem(sys) && ClockCouple(sys, d, s) && epoch + sys.servers[s].strategy.drift < later
    ensures Run(sys, BackRun(sys, d, s, epoch, later, ni, nj, nj2)).events
         == [Started(d, s, epoch, ni), Started(d, s, later, ni), Accepted(s, d, KeyAt(sys, d, s, epoch, ni, nj)),
             Accepted(s, d, KeyAt(sys, d, s, later, ni, nj)), Accepted(s, d, KeyAt(sys, d, s, epoch, ni, nj2))]
  {
    hide ValidSystem, Next, Carrier, After, KeyAt, NonceTag;
    var w0, steps := InitialWorld(sys), BackRun(sys, d, s, epoch, later, ni, nj, nj2);
    StartShaped(sys);
    FiveSteps(sys, w0, steps[0], steps[1], steps[2], steps[3], steps[4]);
    var w1 := Next(sys, w0, steps[0]);
    var w2 := Next(sys, w1, steps[1]);
    var w3 := Next(sys, w2, steps[2]);
    BuildsCarrier(sys, w0, d, s, epoch, ni);
    BuildsCarrier(sys, w1, d, s, later, ni);
    DeliversCarrier(sys, w2, d, s, epoch, ni, nj, epoch, epoch);
    DeliversCarrier(sys, w3, d, s, later, ni, nj, later, later);
    DeliversCarrier(sys, Next(sys, w3, steps[3]), d, s, epoch, ni, nj2, epoch, epoch);
  }

  /** One honest device and one honest server with a drift of 1. */
  function SmallSystem(d: Peer, s: Peer): System {
    System(map[d := 10, s := 20],
           map[d := DeviceConfig(10, map[s := 20], LogConfig(3, 8, 16), true)],
           map[s := ServerConfig(s, 20, Enrolment([d], map[d := 10]), LogConfig(3, 8, 16), Clock(1))])
  }

  lemma SmallSystemValid(d: Peer, s: Peer)
    requires d != s
    ensures ValidSystem(SmallSystem(d, s)) && ClockCouple(SmallSystem(d, s), d, s)
  {
    assert ValidEnrolment(Enrolment([d], map[d := 10]));
  }

  /** Such systems exist; with epoch 5 the two readings are (6, 6) and (6, 7) in the first
      run, and 5, 8 and 5 in the second. */
  lemma SmallSystemCouples(d: Peer, s: Peer)
    requires d != s
    ensures ValidSystem(SmallSystem(d, s)) && ClockCouple(SmallSystem(d, s), d, s)
    ensures var ni, nj, nj2 := Nonce([7]), Nonce([8]), Nonce([9]);
            var (sys, key, key2) := (SmallSystem(d, s), Session(Root(10, 20), ni, nj, 5),
                                     Session(Root(10, 20), ni, nj2, 5));
            && Run(sys, TickRun(sys, d, s, 5, ni, nj, nj2)).events
               == [Started(d, s, 5, ni), Accepted(s, d, key), Accepted(s, d, key2)]
            && Run(sys, BackRun(sys, d, s, 5, 8, ni, nj, nj2)).events
               == [Started(d, s, 5, ni), Started(d, s, 8, ni), Accepted(s, d, key),
                   Accepted(s, d, Session(Root(10, 20), ni, nj, 8)), Accepted(s, d, key2)]
  {
    SmallSystemValid(d, s);
    hide Run, TickRun, BackRun, ValidSystem;
    ClockOutrun(SmallSystem(d, s), d, s, 5, Nonce([7]), Nonce([8]), Nonce([9]));
    ClockGoesBack(SmallSystem(d, s), d, s, 5, 8, Nonce([7]), Nonce([8]), Nonce([9]));
  }

  // ---- Runs in which it cannot ---------------------------------------------------------------

  /** What the clock of s read at its latest delivery. */
  function LatestReading(steps: seq<Step>, s: Peer): nat {
    if steps == [] then 0
    else
      var step := steps[|steps|-1];
      if step.DeliverM1? && step.server == s then step.m.acceptAt else LatestReading(steps[..|steps|-1], s)
  }

  /** The clock of s reads the same twice during each request, and never goes back. */
  predicate SteadyClock(steps: seq<Step>, s: Peer) {
    steps == [] ||
    var before, step := steps[..|steps|-1], steps[|steps|-1];
    && SteadyClock(before, s)
    && (step.DeliverM1? && step.server == s ==>
          step.m.resolveAt == step.m.acceptAt && LatestReading(before, s) <= step.m.acceptAt)
  }

  predicate NoneOutrun(sys: System, w: World, s: Peer) {
    forall i, k :: 0 <= i < k < |w.events| && w.events[k].Accepted? && w.events[k].server == s ==>
      !Outrun(sys, w.readings, w.events[k], i, k)
  }

  predicate ReadUpTo(w: World, s: Peer, top: nat) {
    forall r :: r in w.readings && r.server == s ==> r.at <= top
  }

  lemma SteadyM1(sys: System, w: World, s': Peer, m: Delivery, s: Peer, top: nat)
    requires Shaped(sys, w) && s' in sys.servers && NoneOutrun(sys, w, s) && ReadUpTo(w, s, top)
    requires s' == s ==> m.resolveAt == m.acceptAt && top <= m.acceptAt
    ensures var next := AfterM1(sys, w, s', m);
            NoneOutrun(sys, next, s) && ReadUpTo(next, s, if s' == s then m.acceptAt else top)
  {
    hide ValidSystem, ValidEnrolment, HandleDelivery, ReadsClock;
    ServerIsValid(sys, s');
    HandleEffect(sys.servers[s'], w.srv[s'], m);
    var next := AfterM1(sys, w, s', m);
    var out := HandleAt(sys, w, s', m).1;
    forall i, k | 0 <= i < k < |next.events| && next.events[k].Accepted? && next.events[k].server == s
      ensures !Outrun(sys, next.readings, next.events[k], i, k)
    {
      if k < |w.events| {
        OldNotOutrun(sys, w.readings, next.readings, w.events[k], i, k, |w.events|);
      } else {
        assert next.events[k] == Accepted(s, out.peer, out.key) && s' == s;
      }
    }
  }

  /** Readings made later do not outrun an acceptance made before. */
  lemma OldNotOutrun(sys: System, readings: seq<Reading>, more: seq<Reading>, e: Event, i: int, k: int, n: nat)
    requires !Outrun(sys, readings, e, i, k) && k < n
    requires forall r :: r in more ==> r in readings || r.before == n
    ensures !Outrun(sys, more, e, i, k)
  {}

  lemma SteadyStep(sys: System, w: World, step: Step, s: Peer, top: nat)
    requires Shaped(sys, w) && NoneOutrun(sys, w, s) && ReadUpTo(w, s, top)
    requires step.DeliverM1? && step.server == s ==> step.m.resolveAt == step.m.acceptAt && top <= step.m.acceptAt
    ensures NoneOutrun(sys, Next(sys, w, step), s)
    ensures ReadUpTo(Next(sys, w, step), s, if step.DeliverM1? && step.server == s then step.m.acceptAt else top)
  {
    hide ValidSystem, AfterM1, Build, Complete, CanSend, Outrun;
    match step
    case DeliverM1(s', m) =>
      if s' in sys.servers { SteadyM1(sys, w, s', m, s, top); }
    case _ =>
      QuietStep(sys, w, step);
  }

  /** Steps other than M1 deliveries add no acceptance and no reading. */
  lemma QuietStep(sys: System, w: World, step: Step)
    requires Shaped(sys, w) && !step.DeliverM1?
    ensures var next := Next(sys, w, step);
            && next.readings == w.readings && |w.events| <= |next.events| && next.events[..|w.events|] == w.events
            && forall k :: |w.events| <= k < |next.events| ==> !next.events[k].Accepted?
  {
    hide ValidSystem, AfterM1, Build, Complete, CanSend;
  }

  lemma {:induction false} SteadyNeverOutrun(sys: System, steps: seq<Step>, s: Peer)
    requires ValidSystem(sys) && SteadyClock(steps, s)
    ensures NoneOutrun(sys, Run(sys, steps), s) && ReadUpTo(Run(sys, steps), s, LatestReading(steps, s))
  {
    hide ValidSystem, Next, NoneOutrun, ReadUpTo;
    if steps == [] {
      NothingReadYet(sys, s);
    } else {
      var n := |steps| - 1;
      SteadyNeverOutrun(sys, steps[..n], s);
      SteadyStep(sys, Run(sys, steps[..n]), steps[n], s, LatestReading(steps[..n], s));
    }
  }

  lemma NothingReadYet(sys: System, s: Peer)
    ensures NoneOutrun(sys, InitialWorld(sys), s) && ReadUpTo(InitialWorld(sys), s, 0)
  {}

  /** In every run in which a server's clock stands still during each of its requests and
      never goes back, no two of its acceptances share a build, clock epochs or not. */
  lemma SteadyClockInjective(sys: System, steps: seq<Step>, s: Peer)
    requires ValidSystem(sys) && SteadyClock(steps, s)
    ensures var events := Run(sys, steps).events;
            forall i, k ::
              AcceptanceAt(sys, events, i) && AcceptanceAt(sys, events, k) && i != k && events[k].server == s ==>
                Origin(events, i) != Origin(events, k)
  {
    hide ValidSystem, Run, Origin, Outrun;
    SteadyNeverOutrun(sys, steps, s);
    InjectiveDeviceAuthentication(sys, steps);
    var w := Run(sys, steps);
    forall i, k | AcceptanceAt(sys, w.events, i) && AcceptanceAt(sys, w.events, k) && i < k
      ensures Origin(w.events, i) == Origin(w.events, k) ==> w.events[i].server == w.events[k].server != s
    {
      assert HasOwnBuild(sys, w.events, w.readings, i) && HasOwnBuild(sys, w.events, w.readings, k);
    }
  }
}
