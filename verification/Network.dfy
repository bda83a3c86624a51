/** Devices, servers and a network in the adversary's hands, as one step system. */
module Network {
  import opened Terms
  import opened SessionLogs
  import opened CounterResolvers
  import opened ClockResolvers
  import opened Entities

  /** The honest devices and servers, and the secret of every enrolled entity,
      honest or not. */
  datatype System = System(lam: map<Peer, nat>, devices: map<Peer, DeviceConfig>, servers: map<Peer, ServerConfig>)

  ghost predicate ValidSystem(sys: System) {
    && (forall p, q {:trigger sys.lam[p], sys.lam[q]} :: p in sys.lam && q in sys.lam && sys.lam[p] == sys.lam[q] ==>
        p == q)
    && (forall d :: d in sys.devices ==> ValidDevice(sys, d, sys.devices[d]))
    && (forall s :: s in sys.servers ==> ValidServer(sys, s, sys.servers[s]))
  }

  ghost predicate ValidDevice(sys: System, d: Peer, c: DeviceConfig) {
    d in sys.lam && c.lam == sys.lam[d] &&
    forall s :: s in c.secret ==> s in sys.lam && c.secret[s] == sys.lam[s]
  }

  ghost predicate ValidServer(sys: System, s: Peer, c: ServerConfig) {
    s in sys.lam && c.lam == sys.lam[s] && c.identity == s && ValidEnrolment(c.en) &&
    forall p :: p in c.en.secret ==> p in sys.lam && c.en.secret[p] == sys.lam[p]
  }

  predicate Honest(sys: System, d: Peer, s: Peer) {
    d in sys.devices && s in sys.servers
  }

  function PairRoot(sys: System, d: Peer, s: Peer): Key
    requires d in sys.lam && s in sys.lam
  {
    Root(sys.lam[d], sys.lam[s])
  }

  ghost predicate HonestRoot(sys: System, key: Key)
    requires ValidSystem(sys)
  {
    exists d, s :: Honest(sys, d, s) && key == PairRoot(sys, d, s)
  }

  datatype Event =
    | Started(device: Peer, server: Peer, epoch: nat, ni: Nonce)
    | Accepted(server: Peer, device: Peer, key: SessionKey)
    | Agreed(device: Peer, server: Peer, key: SessionKey)

  /** A clock server read this when it was about to accept, `before` the event of that number. */
  datatype Reading = Reading(server: Peer, at: nat, before: nat)

  datatype World = World(
    dev: map<Peer, DeviceState>, srv: map<Peer, ServerState>, wire: set<Body>,
    restarted: set<Peer>, readings: seq<Reading>, events: seq<Event>)

  /** What can happen next. Deliveries carry what the receiver draws and readings, its
      coverage answer and whether the session is late. Nothing restricts their order, nor
      what a clock readings: it may differ between resolve and accept, and go back. */
  datatype Step =
    | BuildStep(device: Peer, server: Peer, ni: Nonce, iv: nat, reading: nat, inRange: bool)
    | DeliverM1(server: Peer, m: Delivery)
    | DeliverM2(device: Peer, m2: Message2, late: bool)
    | Drop(body: Body)
    | OperatorBlock(server: Peer, peer: Peer)
    | Restart(device: Peer)

  function InitialWorld(sys: System): World {
    World(map d | d in sys.devices :: FRESH_DEVICE, map s | s in sys.servers :: FRESH_SERVER, {}, {}, [], [])
  }

  /** The adversary replays, reorders, redirects and recombines what is on the wire
      and makes up anything else, except what is sealed under an honest pair's root. */
  ghost predicate CanSend(sys: System, wire: set<Body>, body: Body)
    requires ValidSystem(sys)
  {
    body in wire || !(body.Sealed? && HonestRoot(sys, body.key))
  }

  ghost predicate Shaped(sys: System, w: World) {
    ValidSystem(sys) && w.dev.Keys == sys.devices.Keys && w.srv.Keys == sys.servers.Keys
  }

  ghost function AfterBuild(sys: System, w: World, d: Peer, s: Peer, ni: Nonce, iv: nat, reading: nat,
                            inRange: bool): (next: World)
    requires Shaped(sys, w) && d in sys.devices
    ensures Shaped(sys, next)
  {
    var (st, out) := Build(sys.devices[d], w.dev[d], s, ni, iv, reading, inRange);
    if out.NotBuilt? then w
    else
      w.(dev := w.dev[d := st], wire := w.wire + {out.m1.body},
         events := w.events + [Started(d, s, out.m1.pid.epoch, ni)])
  }

  /** The world once server s has moved to st and answered `out`. */
  function Answered(w: World, s: Peer, st: ServerState, out: ServerOutcome, readings: seq<Reading>): World {
    var moved := w.(srv := w.srv[s := st], readings := readings);
    if out.Rejected? then moved
    else moved.(wire := w.wire + {out.response.body}, events := w.events + [Accepted(s, out.peer, out.key)])
  }

  /** What server s makes of an M1. */
  ghost function HandleAt(sys: System, w: World, s: Peer, m: Delivery): (ServerState, ServerOutcome)
    requires Shaped(sys, w) && s in sys.servers
  {
    hide ValidEnrolment, HandleDelivery;
    HandleDelivery(sys.servers[s], w.srv[s], m)
  }

  ghost function ReadingsAfter(sys: System, w: World, s: Peer, m: Delivery): seq<Reading>
    requires Shaped(sys, w) && s in sys.servers
  {
    hide ValidEnrolment, ReadsClock;
    if ReadsClock(sys.servers[s], w.srv[s], m) then w.readings + [Reading(s, m.acceptAt, |w.events|)] else w.readings
  }

  ghost function AfterM1(sys: System, w: World, s: Peer, m: Delivery): (next: World)
    requires Shaped(sys, w) && s in sys.servers
    ensures Shaped(sys, next)
  {
    hide ValidSystem, HandleAt, ReadingsAfter;
    var (st, out) := HandleAt(sys, w, s, m);
    Answered(w, s, st, out, ReadingsAfter(sys, w, s, m))
  }

  ghost function AfterM2(sys: System, w: World, d: Peer, m2: Message2, late: bool): (next: World)
    requires Shaped(sys, w) && d in sys.devices
    ensures Shaped(sys, next)
  {
    var (st, out) := Complete(sys.devices[d], w.dev[d], m2, late);
    var moved := w.(dev := w.dev[d := st]);
    if out.NotCompleted? then moved
    else moved.(events := w.events + [Agreed(d, m2.serverId, out.key)])
  }

  ghost function Next(sys: System, w: World, step: Step): (next: World)
    requires Shaped(sys, w)
    ensures Shaped(sys, next)
  {
    hide ValidSystem, Handle, Build, Complete, CanSend;
    match step
    case BuildStep(d, s, ni, iv, reading, inRange) =>
      if d in sys.devices then AfterBuild(sys, w, d, s, ni, iv, reading, inRange) else w
    case DeliverM1(s, m) =>
      if s in sys.servers && CanSend(sys, w.wire, m.m1.body) then AfterM1(sys, w, s, m) else w
    case DeliverM2(d, m2, late) =>
      if d in sys.devices && CanSend(sys, w.wire, m2.body) then AfterM2(sys, w, d, m2, late) else w
    case Drop(body) => w.(wire := w.wire - {body})
    case OperatorBlock(s, p) =>
      if s in sys.servers then w.(srv := w.srv[s := w.srv[s].(log := AfterBlock(w.srv[s].log, p))]) else w
    case Restart(d) =>
      if d in sys.devices then w.(dev := w.dev[d := FRESH_DEVICE], restarted := w.restarted + {d}) else w
  }

  ghost function After(sys: System, w: World, steps: seq<Step>): (end: World)
    requires Shaped(sys, w)
    ensures Shaped(sys, end)
  {
    if steps == [] then w else Next(sys, After(sys, w, steps[..|steps|-1]), steps[|steps|-1])
  }

  ghost function Run(sys: System, steps: seq<Step>): World
    requires ValidSystem(sys)
  {
    After(sys, InitialWorld(sys), steps)
  }

  // ---- Invariants ------------------------------------------------------------------

  lemma RootsDiffer(sys: System, d: Peer, s: Peer, d': Peer, s': Peer)
    requires ValidSystem(sys) && d in sys.lam && s in sys.lam && d' in sys.lam && s' in sys.lam
    requires PairRoot(sys, d, s) == PairRoot(sys, d', s')
    ensures d == d' && s == s'
  {}

  /** A body under the root of honest d and s is what d or s sealed, no more. */
  predicate BodyOk(sys: System, events: seq<Event>, b: Body, d: Peer, s: Peer) {
    Honest(sys, d, s) && d in sys.lam && s in sys.lam && b.Sealed? && b.key == PairRoot(sys, d, s) ==>
      match b.aad
      case NoAad =>
        b.plain.Plain1? && b.plain.pid == H2(sys.lam[d], b.plain.epoch)
        && Started(d, s, b.plain.epoch, b.plain.ni) in events
      case Bound(pid, ni) =>
        b.plain.Plain2? && pid == H2(sys.lam[d], b.plain.epoch)
        && Accepted(s, d, Session(b.key, ni, b.plain.nj, b.plain.epoch)) in events
  }

  ghost predicate WireOk(sys: System, wire: set<Body>, events: seq<Event>) {
    forall b, d, s :: b in wire ==> BodyOk(sys, events, b, d, s)
  }

  /** The event an acceptance or agreement between honest parties answers to. */
  function Cause(e: Event): Event {
    match e
    case Started(_, _, _, _) => e
    case Accepted(s, d, key) => Started(d, s, key.epoch, key.ni)
    case Agreed(d, s, key) => Accepted(s, d, key)
  }

  predicate Caused(sys: System, events: seq<Event>, k: int)
    requires 0 <= k < |events|
  {
    Honest(sys, events[k].device, events[k].server) && !events[k].Started? ==>
      Cause(events[k]) in events[..k] && KeyOfPair(sys, events[k])
  }

  /** The session key of an acceptance or agreement comes from the pair's own root. */
  predicate KeyOfPair(sys: System, e: Event)
    requires !e.Started?
  {
    e.device in sys.lam && e.server in sys.lam && e.key.root == PairRoot(sys, e.device, e.server)
  }

  predicate AllCaused(sys: System, events: seq<Event>) {
    forall k :: 0 <= k < |events| ==> Caused(sys, events, k)
  }

  /** Two acceptances of one server and peer differ in epoch or nonce. */
  predicate Differ(a: Event, b: Event) {
    a.Accepted? && b.Accepted? && a.server == b.server && a.device == b.device ==>
      a.key.epoch != b.key.epoch || a.key.ni != b.key.ni
  }

  /** No accept reading of server s since event i is beyond the bound. */
  predicate Within(readings: seq<Reading>, s: Peer, i: int, bound: int) {
    forall r :: r in readings && r.server == s && i < r.before ==> r.at <= bound
  }

  /** Between the acceptances i and k, that of k included, an accept reading of the clock
      server left the window of the epoch. */
  predicate Outrun(sys: System, readings: seq<Reading>, e: Event, i: int, k: int) {
    && e.Accepted? && e.server in sys.servers && sys.servers[e.server].strategy.Clock?
    && exists r :: r in readings && r.server == e.server && i < r.before <= k
                   && r.at > e.key.epoch + sys.servers[e.server].strategy.drift
  }

  predicate AcceptancesDiffer(sys: System, events: seq<Event>, readings: seq<Reading>) {
    forall i, k :: 0 <= i < k < |events| ==> Differ(events[i], events[k]) || Outrun(sys, readings, events[k], i, k)
  }

  /** This acceptance of server s put the tag into the cache of epoch e. */
  predicate LeavesTag(ev: Event, s: Peer, e: nat, tag: seq<byte>) {
    ev.Accepted? && ev.server == s && ev.key.epoch == e && NonceTag(ev.device, ev.key.ni) == tag
  }

  /** Event i left the tag, and no accept reading since has pruned it. */
  predicate Held(drift: nat, events: seq<Event>, readings: seq<Reading>, s: Peer, e: nat, tag: seq<byte>, i: int) {
    0 <= i < |events| && LeavesTag(events[i], s, e, tag) && Within(readings, s, i, e + drift)
  }

  /** What server s remembers of its acceptances: with counter epochs the last one, with
      clock epochs exactly the tags no reading has pruned. */
  ghost predicate Remembers(c: ServerConfig, st: ServerState, readings: seq<Reading>, events: seq<Event>, s: Peer) {
    && (forall ev :: ev in events && ev.Accepted? && ev.server == s ==>
          ev.device in c.en.secret && (!c.strategy.Clock? ==> ev.key.epoch <= Last(st.log.last, ev.device)))
    && (c.strategy.Clock? ==> forall e: nat, tag :: CacheIs(c.strategy.drift, st.nonces, readings, events, s, e, tag))
  }

  ghost predicate CacheIs(drift: nat, nonces: Nonces, readings: seq<Reading>, events: seq<Event>, s: Peer, e: nat,
                          tag: seq<byte>) {
    tag in TagsAt(nonces, e) <==> exists i :: Held(drift, events, readings, s, e, tag, i)
  }

  ghost predicate AllRemembered(sys: System, srv: map<Peer, ServerState>, readings: seq<Reading>, events: seq<Event>) {
    && (forall r :: r in readings ==> r.before <= |events|)
    && (forall s :: s in sys.servers && s in srv ==> Remembers(sys.servers[s], srv[s], readings, events, s))
  }

  /** Device d counts its epochs, and has done so without a gap. */
  predicate CountsOn(sys: System, restarted: set<Peer>, d: Peer) {
    d in sys.devices && !sys.devices[d].usesClock && d !in restarted
  }

  /** A pending session is the device's newest one with that peer. */
  predicate PendingOk(sys: System, d: Peer, c: DeviceConfig, st: DeviceState, s: Peer) {
    s in st.pending ==>
      var p := st.pending[s];
      && p.peer == s && s in c.secret && p.root == Root(c.lam, c.secret[s]) && p.pid == H2(c.lam, p.epoch)
      && (!c.usesClock ==> p.epoch < Counter(st, s))
  }

  /** While d counts: everything it did so far lies below its counter, and every
      agreement below its pending session. */
  predicate Below(counting: bool, st: DeviceState, d: Peer, e: Event) {
    e.device == d && counting ==>
      match e
      case Started(_, s, t, _) => t < Counter(st, s)
      case Agreed(_, s, key) => key.epoch < (if s in st.pending then st.pending[s].epoch else Counter(st, s))
      case Accepted(_, _, _) => true
  }

  ghost predicate DevicesOk(sys: System, dev: map<Peer, DeviceState>, restarted: set<Peer>, events: seq<Event>) {
    forall d :: d in sys.devices && d in dev ==>
      && (forall s :: PendingOk(sys, d, sys.devices[d], dev[d], s))
      && (forall e :: e in events ==> Below(CountsOn(sys, restarted, d), dev[d], d, e))
  }

  predicate AgreementsDiffer(sys: System, restarted: set<Peer>, events: seq<Event>) {
    forall i, k :: 0 <= i < k < |events| ==> AgreedApart(sys, restarted, events[i], events[k])
  }

  predicate AgreedApart(sys: System, restarted: set<Peer>, a: Event, b: Event) {
    a.Agreed? && b.Agreed? && a.device == b.device && a.server == b.server
    && CountsOn(sys, restarted, a.device) ==>
      a.key.epoch < b.key.epoch
  }

  /** While it counts, a device is ahead of every server's last accepted epoch. */
  predicate Ahead(sys: System, dev: map<Peer, DeviceState>, restarted: set<Peer>, srv: map<Peer, ServerState>,
                  d: Peer, s: Peer) {
    d in dev && s in srv && CountsOn(sys, restarted, d) ==>
      Last(srv[s].log.last, d) < Counter(dev[d], s)
  }

  ghost predicate AllAhead(sys: System, dev: map<Peer, DeviceState>, restarted: set<Peer>, srv: map<Peer,
                           ServerState>) {
    forall d, s :: Ahead(sys, dev, restarted, srv, d, s)
  }

  ghost predicate Inv(sys: System, w: World) {
    && Shaped(sys, w)
    && WireOk(sys, w.wire, w.events)
    && AllCaused(sys, w.events)
    && AcceptancesDiffer(sys, w.events, w.readings)
    && AllRemembered(sys, w.srv, w.readings, w.events)
    && DevicesOk(sys, w.dev, w.restarted, w.events)
    && AgreementsDiffer(sys, w.restarted, w.events)
    && AllAhead(sys, w.dev, w.restarted, w.srv)
  }

  // ---- One event more ------------------------------------------------------------------

  lemma WireGrows(sys: System, wire: set<Body>, events: seq<Event>, body: Body, e: Event)
    requires WireOk(sys, wire, events)
    requires forall d, s :: BodyOk(sys, events + [e], body, d, s)
    ensures WireOk(sys, wire + {body}, events + [e])
  {
    forall b, d, s | b in wire + {body} ensures BodyOk(sys, events + [e], b, d, s) {
      if b in wire { assert BodyOk(sys, events, b, d, s); }
    }
  }

  lemma CausedGrows(sys: System, events: seq<Event>, e: Event)
    requires AllCaused(sys, events)
    requires Honest(sys, e.device, e.server) && !e.Started? ==> Cause(e) in events && KeyOfPair(sys, e)
    ensures AllCaused(sys, events + [e])
  {
    var more := events + [e];
    forall k | 0 <= k < |more| ensures Caused(sys, more, k) {
      if k < |events| {
        assert Caused(sys, events, k);
        assert more[..k] == events[..k];
      } else {
        assert more[..k] == events;
      }
    }
  }

  lemma DifferGrows(sys: System, events: seq<Event>, readings: seq<Reading>, more: seq<Reading>, e: Event)
    requires AcceptancesDiffer(sys, events, readings) && (forall r :: r in readings ==> r in more)
    requires forall i :: 0 <= i < |events| ==> Differ(events[i], e) || Outrun(sys, more, e, i, |events|)
    ensures AcceptancesDiffer(sys, events, more) && AcceptancesDiffer(sys, events + [e], more)
  {
    forall i, k | 0 <= i < k < |events| ensures Differ(events[i], events[k]) || Outrun(sys, more, events[k], i, k) {
      assert Differ(events[i], events[k]) || Outrun(sys, readings, events[k], i, k);
    }
  }

  lemma ApartGrows(sys: System, restarted: set<Peer>, events: seq<Event>, e: Event)
    requires AgreementsDiffer(sys, restarted, events)
    requires forall i :: 0 <= i < |events| ==> AgreedApart(sys, restarted, events[i], e)
    ensures AgreementsDiffer(sys, restarted, events + [e])
  {}

  // ---- BuildStep ---------------------------------------------------------------------------

  lemma BuildKeepsInv(sys: System, w: World, d: Peer, s: Peer, ni: Nonce, iv: nat, reading: nat, inRange: bool)
    requires Inv(sys, w) && d in sys.devices
    ensures Inv(sys, AfterBuild(sys, w, d, s, ni, iv, reading, inRange))
  {
    hide WireOk, AllCaused, AcceptancesDiffer, AllRemembered, DevicesOk, AgreementsDiffer, AllAhead, Build;
    var out := Build(sys.devices[d], w.dev[d], s, ni, iv, reading, inRange).1;
    if out.Built? {
      BuiltBodyOk(sys, w, d, s, ni, iv, reading, inRange);
      var e := Started(d, s, out.m1.pid.epoch, ni);
      WireGrows(sys, w.wire, w.events, out.m1.body, e);
      CausedGrows(sys, w.events, e);
      DifferGrows(sys, w.events, w.readings, w.readings, e);
      ApartGrows(sys, w.restarted, w.events, e);
      RememberedStill(sys, w.srv, w.readings, w.events, e);
      BuildKeepsDevices(sys, w, d, s, ni, iv, reading, inRange);
      BuildKeepsAhead(sys, w, d, s, ni, iv, reading, inRange);
    }
  }

  /** A new event of another server, or none of a server's, leaves a server's memory. */
  lemma RemembersStill(c: ServerConfig, st: ServerState, readings: seq<Reading>, more: seq<Reading>,
                       events: seq<Event>, e: Event, s: Peer)
    requires Remembers(c, st, readings, events, s)
    requires !(e.Accepted? && e.server == s)
    requires forall r: Reading :: r.server == s ==> (r in more <==> r in readings)
    ensures Remembers(c, st, more, events, s) && Remembers(c, st, more, events + [e], s)
  {
    hide NonceTag;
    if c.strategy.Clock? {
      forall e': nat, tag
        ensures CacheIs(c.strategy.drift, st.nonces, more, events, s, e', tag)
        ensures CacheIs(c.strategy.drift, st.nonces, more, events + [e], s, e', tag)
      {
        assert CacheIs(c.strategy.drift, st.nonces, readings, events, s, e', tag);
        forall i
          ensures Held(c.strategy.drift, events, readings, s, e', tag, i)
              <==> Held(c.strategy.drift, events, more, s, e', tag, i)
          ensures Held(c.strategy.drift, events, readings, s, e', tag, i)
              <==> Held(c.strategy.drift, events + [e], more, s, e', tag, i)
        {}
      }
    }
  }

  lemma RememberedStill(sys: System, srv: map<Peer, ServerState>, readings: seq<Reading>, events: seq<Event>, e: Event)
    requires AllRemembered(sys, srv, readings, events) && !e.Accepted?
    ensures AllRemembered(sys, srv, readings, events + [e])
  {
    hide Remembers;
    forall s | s in sys.servers && s in srv ensures Remembers(sys.servers[s], srv[s], readings, events + [e], s) {
      RemembersStill(sys.servers[s], srv[s], readings, readings, events, e, s);
    }
  }

  lemma BuildKeepsAhead(sys: System, w: World, d: Peer, s: Peer, ni: Nonce, iv: nat, reading: nat, inRange: bool)
    requires Shaped(sys, w) && AllAhead(sys, w.dev, w.restarted, w.srv) && d in sys.devices
    ensures var next := AfterBuild(sys, w, d, s, ni, iv, reading, inRange);
            AllAhead(sys, next.dev, next.restarted, next.srv)
  {
    hide ValidSystem;
    var next := AfterBuild(sys, w, d, s, ni, iv, reading, inRange);
    forall d', s' ensures Ahead(sys, next.dev, next.restarted, next.srv, d', s') {
      assert Ahead(sys, w.dev, w.restarted, w.srv, d', s');
    }
  }

  lemma BuiltBodyOk(sys: System, w: World, d: Peer, s: Peer, ni: Nonce, iv: nat, reading: nat, inRange: bool)
    requires Shaped(sys, w) && d in sys.devices
    requires Build(sys.devices[d], w.dev[d], s, ni, iv, reading, inRange).1.Built?
    ensures var m1 := Build(sys.devices[d], w.dev[d], s, ni, iv, reading, inRange).1.m1;
            && m1.pid.H2?
            && forall d', s' :: BodyOk(sys, w.events + [Started(d, s, m1.pid.epoch, ni)], m1.body, d', s')
  {
    var m1 := Build(sys.devices[d], w.dev[d], s, ni, iv, reading, inRange).1.m1;
    assert ValidDevice(sys, d, sys.devices[d]);
    forall d', s' | Honest(sys, d', s') && d' in sys.lam && s' in sys.lam && m1.body.key == PairRoot(sys, d', s')
      ensures d' == d && s' == s
    {
      RootsDiffer(sys, d, s, d', s');
    }
  }

  lemma BuildKeepsDevices(sys: System, w: World, d: Peer, s: Peer, ni: Nonce, iv: nat, reading: nat, inRange: bool)
    requires Shaped(sys, w) && DevicesOk(sys, w.dev, w.restarted, w.events) && d in sys.devices
    ensures var next := AfterBuild(sys, w, d, s, ni, iv, reading, inRange);
            DevicesOk(sys, next.dev, next.restarted, next.events)
  {
    hide ValidSystem;
    var next := AfterBuild(sys, w, d, s, ni, iv, reading, inRange);
    forall d' | d' in sys.devices && d' in next.dev
      ensures forall s' :: PendingOk(sys, d', sys.devices[d'], next.dev[d'], s')
      ensures forall e :: e in next.events ==> Below(CountsOn(sys, next.restarted, d'), next.dev[d'], d', e)
    {
      forall s' ensures PendingOk(sys, d', sys.devices[d'], next.dev[d'], s') {
        assert PendingOk(sys, d', sys.devices[d'], w.dev[d'], s');
      }
      forall e | e in next.events ensures Below(CountsOn(sys, next.restarted, d'), next.dev[d'], d', e) {
        if e in w.events {
          assert Below(CountsOn(sys, w.restarted, d'), w.dev[d'], d', e);
          if e.Agreed? { assert PendingOk(sys, d', sys.devices[d'], w.dev[d'], e.server); }
        }
      }
    }
  }

  // ---- DeliverM1 ---------------------------------------------------------------------------

  lemma M1KeepsInv(sys: System, w: World, s: Peer, m: Delivery)
    requires Inv(sys, w) && s in sys.servers && CanSend(sys, w.wire, m.m1.body)
    ensures Inv(sys, AfterM1(sys, w, s, m))
  {
    hide WireOk, AllCaused, AcceptancesDiffer, AllRemembered, DevicesOk, AgreementsDiffer, AllAhead;
    hide HandleDelivery, ReadingsAfter, ValidSystem;
    var out := HandleAt(sys, w, s, m).1;
    M1KeepsMemory(sys, w, s, m);
    M1KeepsAhead(sys, w, s, m);
    M1KeepsDiffer(sys, w, s, m);
    if out.AuthResult? {
      var e := Accepted(s, out.peer, out.key);
      AcceptedBody(sys, w, s, m);
      WireGrows(sys, w.wire, w.events, out.response.body, e);
      CausedGrows(sys, w.events, e);
      ApartGrows(sys, w.restarted, w.events, e);
      DevicesStill(sys, w.dev, w.restarted, w.events, e);
    }
  }

  lemma ServerIsValid(sys: System, s: Peer)
    requires ValidSystem(sys) && s in sys.servers
    ensures ValidServer(sys, s, sys.servers[s])
  {}

  lemma DevicesStill(sys: System, dev: map<Peer, DeviceState>, restarted: set<Peer>, events: seq<Event>, e: Event)
    requires DevicesOk(sys, dev, restarted, events) && e.Accepted?
    ensures DevicesOk(sys, dev, restarted, events + [e])
  {
    forall d | d in sys.devices && d in dev
      ensures forall x :: x in events + [e] ==> Below(CountsOn(sys, restarted, d), dev[d], d, x)
    {}
  }

  /** A server accepts an honest device only on a body that device sealed for it. */
  lemma AcceptedBody(sys: System, w: World, s: Peer, m: Delivery)
    requires Shaped(sys, w) && s in sys.servers && CanSend(sys, w.wire, m.m1.body)
    requires WireOk(sys, w.wire, w.events)
    requires HandleAt(sys, w, s, m).1.AuthResult?
    ensures var out := HandleAt(sys, w, s, m).1;
            var e := Accepted(s, out.peer, out.key);
            && (Honest(sys, out.peer, s) ==> Cause(e) in w.events && KeyOfPair(sys, e) && m.m1.body in w.wire)
            && (forall d', s' :: BodyOk(sys, w.events + [e], out.response.body, d', s'))
  {
    hide Handle, ValidSystem, WireOk;
    ServerIsValid(sys, s);
    HandleEffect(sys.servers[s], w.srv[s], m);
    var out := HandleAt(sys, w, s, m).1;
    var p := out.peer;
    if Honest(sys, p, s) {
      assert m.m1.body.key == PairRoot(sys, p, s);
      WireBody(sys, w.wire, w.events, m.m1.body, p, s);
    }
    forall d', s' | Honest(sys, d', s') && d' in sys.lam && s' in sys.lam
        && out.response.body.key == PairRoot(sys, d', s')
      ensures d' == p && s' == s
    {
      RootsDiffer(sys, p, s, d', s');
    }
  }

  lemma WireBody(sys: System, wire: set<Body>, events: seq<Event>, body: Body, d: Peer, s: Peer)
    requires ValidSystem(sys) && WireOk(sys, wire, events) && CanSend(sys, wire, body)
    requires Honest(sys, d, s) && d in sys.lam && s in sys.lam && body.Sealed? && body.key == PairRoot(sys, d, s)
    ensures body in wire && BodyOk(sys, events, body, d, s)
  {
    hide ValidSystem;
    assert HonestRoot(sys, body.key);
  }

  /** A new acceptance differs from each earlier one of the same server and peer, unless
      some accept reading since then, its own included, has left the epoch's window. */
  lemma NewAcceptanceDiffers(sys: System, w: World, s: Peer, m: Delivery)
    requires Shaped(sys, w) && s in sys.servers && AllRemembered(sys, w.srv, w.readings, w.events)
    ensures var out := HandleAt(sys, w, s, m).1;
            out.AuthResult? ==>
              var e := Accepted(s, out.peer, out.key);
              forall i :: 0 <= i < |w.events| ==>
                Differ(w.events[i], e) || Outrun(sys, ReadingsAfter(sys, w, s, m), e, i, |w.events|)
  {
    hide HandleDelivery, ValidSystem, ReadsClock, NonceTag, Remembers;
    var out := HandleAt(sys, w, s, m).1;
    ServerIsValid(sys, s);
    HandleEffect(sys.servers[s], w.srv[s], m);
    if out.AuthResult? {
      var e := Accepted(s, out.peer, out.key);
      forall i | 0 <= i < |w.events| && !Differ(w.events[i], e)
        ensures Outrun(sys, ReadingsAfter(sys, w, s, m), e, i, |w.events|)
      {
        RepeatOutruns(sys, w, s, m, i);
      }
    }
  }

  lemma RepeatOutruns(sys: System, w: World, s: Peer, m: Delivery, i: nat)
    requires Shaped(sys, w) && s in sys.servers && AllRemembered(sys, w.srv, w.readings, w.events) && i < |w.events|
    requires HandleAt(sys, w, s, m).1.AuthResult?
    requires var out := HandleAt(sys, w, s, m).1; !Differ(w.events[i], Accepted(s, out.peer, out.key))
    ensures var out := HandleAt(sys, w, s, m).1;
            Outrun(sys, ReadingsAfter(sys, w, s, m), Accepted(s, out.peer, out.key), i, |w.events|)
  {
    hide HandleDelivery, ValidSystem, ReadsClock, NonceTag;
    var c, out := sys.servers[s], HandleAt(sys, w, s, m).1;
    ServerIsValid(sys, s);
    HandleEffect(c, w.srv[s], m);
    assert w.events[i] in w.events;
    if c.strategy.Clock? {
      var epoch, tag := out.key.epoch, NonceTag(out.peer, out.key.ni);
      CacheEffect(c, w.srv[s], m, epoch, tag);
      assert CacheIs(c.strategy.drift, w.srv[s].nonces, w.readings, w.events, s, epoch, tag);
      assert LeavesTag(w.events[i], s, epoch, tag);
      if Within(w.readings, s, i, epoch + c.strategy.drift) {
        assert Held(c.strategy.drift, w.events, w.readings, s, epoch, tag, i);
        assert Reading(s, m.acceptAt, |w.events|) in ReadingsAfter(sys, w, s, m);
      } else {
        var r :| r in w.readings && r.server == s && i < r.before && r.at > epoch + c.strategy.drift;
        assert r in ReadingsAfter(sys, w, s, m);
      }
    }
  }

  lemma M1KeepsDiffer(sys: System, w: World, s: Peer, m: Delivery)
    requires Shaped(sys, w) && s in sys.servers && AllRemembered(sys, w.srv, w.readings, w.events)
    requires AcceptancesDiffer(sys, w.events, w.readings)
    ensures var next := AfterM1(sys, w, s, m);
            AcceptancesDiffer(sys, next.events, next.readings)
  {
    hide HandleDelivery, ValidSystem, ReadsClock, AllRemembered, AcceptancesDiffer, Outrun, Differ;
    NewAcceptanceDiffers(sys, w, s, m);
    var out := HandleAt(sys, w, s, m).1;
    if out.AuthResult? {
      DifferGrows(sys, w.events, w.readings, ReadingsAfter(sys, w, s, m), Accepted(s, out.peer, out.key));
    } else {
      DifferGrows(sys, w.events, w.readings, ReadingsAfter(sys, w, s, m), Started(s, s, 0, Nonce([])))
        by { hide AcceptancesDiffer; AnyDiffer(w.events, Started(s, s, 0, Nonce([]))); }
    }
  }

  lemma AnyDiffer(events: seq<Event>, e: Event)
    requires !e.Accepted?
    ensures forall i :: 0 <= i < |events| ==> Differ(events[i], e)
  {}

  lemma ServerRemembers(c: ServerConfig, st: ServerState, readings: seq<Reading>, events: seq<Event>, s: Peer,
                        m: Delivery)
    requires ValidEnrolment(c.en) && Remembers(c, st, readings, events, s)
    requires forall r :: r in readings ==> r.before <= |events|
    ensures var (next, out) := HandleDelivery(c, st, m);
            var more := if ReadsClock(c, st, m) then readings + [Reading(s, m.acceptAt, |events|)] else readings;
            Remembers(c, next, more, if out.AuthResult? then events + [Accepted(s, out.peer, out.key)] else events, s)
  {
    hide HandleDelivery, ValidEnrolment, ReadsClock, CacheIs;
    HandleEffect(c, st, m);
    var (next, out) := HandleDelivery(c, st, m);
    var more := if ReadsClock(c, st, m) then readings + [Reading(s, m.acceptAt, |events|)] else readings;
    var later := if out.AuthResult? then events + [Accepted(s, out.peer, out.key)] else events;
    forall ev | ev in later && ev.Accepted? && ev.server == s
      ensures ev.device in c.en.secret && (!c.strategy.Clock? ==> ev.key.epoch <= Last(next.log.last, ev.device))
    {
      if ev !in events { assert ev == Accepted(s, out.peer, out.key); }
    }
    if c.strategy.Clock? {
      forall e: nat, tag ensures CacheIs(c.strategy.drift, next.nonces, more, later, s, e, tag) {
        CacheRemembers(c, st, readings, events, s, m, e, tag);
      }
    }
  }

  lemma CacheRemembers(c: ServerConfig, st: ServerState, readings: seq<Reading>, events: seq<Event>, s: Peer,
                       m: Delivery, e: nat, tag: seq<byte>)
    requires ValidEnrolment(c.en) && c.strategy.Clock?
    requires CacheIs(c.strategy.drift, st.nonces, readings, events, s, e, tag)
    requires forall r :: r in readings ==> r.before <= |events|
    ensures var (next, out) := HandleDelivery(c, st, m);
            var more := if ReadsClock(c, st, m) then readings + [Reading(s, m.acceptAt, |events|)] else readings;
            CacheIs(c.strategy.drift, next.nonces, more,
                    if out.AuthResult? then events + [Accepted(s, out.peer, out.key)] else events, s, e, tag)
  {
    hide HandleDelivery, ValidEnrolment, ReadsClock, NonceTag;
    CacheEffect(c, st, m, e, tag);
    var (next, out) := HandleDelivery(c, st, m);
    var more := if ReadsClock(c, st, m) then readings + [Reading(s, m.acceptAt, |events|)] else readings;
    var later := if out.AuthResult? then events + [Accepted(s, out.peer, out.key)] else events;
    var drift := c.strategy.drift;
    forall i | 0 <= i < |events|
      ensures Held(drift, later, more, s, e, tag, i) <==>
                Held(drift, events, readings, s, e, tag, i) && (ReadsClock(c, st, m) ==> m.acceptAt <= e + drift)
    {
      WithinOneMore(readings, s, i, e + drift, Reading(s, m.acceptAt, |events|));
    }
    if out.AuthResult? && LeavesTag(later[|events|], s, e, tag) {
      assert Held(drift, later, more, s, e, tag, |events|);
    }
  }

  lemma WithinOneMore(readings: seq<Reading>, s: Peer, i: int, bound: int, r: Reading)
    ensures Within(readings + [r], s, i, bound)
        <==> Within(readings, s, i, bound) && (r.server == s && i < r.before ==> r.at <= bound)
  {
    assert r in readings + [r];
  }

  lemma M1KeepsMemory(sys: System, w: World, s: Peer, m: Delivery)
    requires Shaped(sys, w) && s in sys.servers && AllRemembered(sys, w.srv, w.readings, w.events)
    ensures var next := AfterM1(sys, w, s, m);
            AllRemembered(sys, next.srv, next.readings, next.events)
  {
    hide HandleDelivery, ValidSystem, ReadsClock, Remembers;
    ServerIsValid(sys, s);
    ServerRemembers(sys.servers[s], w.srv[s], w.readings, w.events, s, m);
    var next := AfterM1(sys, w, s, m);
    var out := HandleAt(sys, w, s, m).1;
    var e := if out.AuthResult? then Accepted(s, out.peer, out.key) else Accepted(s, s,
        Session(OtherKey(0), m.nj, m.nj, 0));
    forall s' | s' in sys.servers && s' in next.srv
      ensures Remembers(sys.servers[s'], next.srv[s'], next.readings, next.events, s')
    {
      if s' != s {
        RemembersStill(sys.servers[s'], w.srv[s'], w.readings, next.readings, w.events, e, s');
      }
    }
  }

  lemma M1KeepsAhead(sys: System, w: World, s: Peer, m: Delivery)
    requires Inv(sys, w) && s in sys.servers && CanSend(sys, w.wire, m.m1.body)
    ensures var next := AfterM1(sys, w, s, m);
            AllAhead(sys, next.dev, next.restarted, next.srv)
  {
    hide Handle, ValidSystem, WireOk, AllCaused, AcceptancesDiffer, AllRemembered, AgreementsDiffer;
    ServerIsValid(sys, s);
    HandleEffect(sys.servers[s], w.srv[s], m);
    var out := HandleAt(sys, w, s, m).1;
    if out.AuthResult? {
      AcceptedBody(sys, w, s, m);
    }
    var next := AfterM1(sys, w, s, m);
    forall d, s' ensures Ahead(sys, next.dev, next.restarted, next.srv, d, s') {
      assert Ahead(sys, w.dev, w.restarted, w.srv, d, s');
      if out.AuthResult? && d == out.peer && s' == s && d in sys.devices {
        assert Below(CountsOn(sys, w.restarted, d), w.dev[d], d, Started(d, s, out.key.epoch, out.key.ni));
      }
    }
  }

  // ---- DeliverM2 ---------------------------------------------------------------------------

  lemma M2KeepsInv(sys: System, w: World, d: Peer, m2: Message2, late: bool)
    requires Inv(sys, w) && d in sys.devices && CanSend(sys, w.wire, m2.body)
    ensures Inv(sys, AfterM2(sys, w, d, m2, late))
  {
    hide WireOk, AllCaused, AcceptancesDiffer, AllRemembered, DevicesOk, AgreementsDiffer, AllAhead, Complete,
         ValidSystem;
    var out := Complete(sys.devices[d], w.dev[d], m2, late).1;
    M2KeepsDevices(sys, w, d, m2, late);
    M2KeepsAhead(sys, w, d, m2, late);
    if out.Completed? {
      var e := Agreed(d, m2.serverId, out.key);
      AgreedBody(sys, w, d, m2, late);
      WireKeeps(sys, w.wire, w.events, e);
      CausedGrows(sys, w.events, e);
      DifferGrows(sys, w.events, w.readings, w.readings, e);
      NewAgreementApart(sys, w, d, m2, late);
      ApartGrows(sys, w.restarted, w.events, e);
      RememberedStill(sys, w.srv, w.readings, w.events, e);
    }
  }

  lemma WireKeeps(sys: System, wire: set<Body>, events: seq<Event>, e: Event)
    requires WireOk(sys, wire, events)
    ensures WireOk(sys, wire, events + [e])
  {
    forall b, d, s | b in wire ensures BodyOk(sys, events + [e], b, d, s) {
      assert BodyOk(sys, events, b, d, s);
    }
  }

  /** A device completes a session with an honest server only on that server's own
      reply, made for this session and carrying the same key. */
  lemma AgreedBody(sys: System, w: World, d: Peer, m2: Message2, late: bool)
    requires Shaped(sys, w) && d in sys.devices && CanSend(sys, w.wire, m2.body)
    requires WireOk(sys, w.wire, w.events) && DevicesOk(sys, w.dev, w.restarted, w.events)
    requires Complete(sys.devices[d], w.dev[d], m2, late).1.Completed?
    ensures var out := Complete(sys.devices[d], w.dev[d], m2, late).1;
            Honest(sys, d, m2.serverId) ==>
              Accepted(m2.serverId, d, out.key) in w.events && KeyOfPair(sys, Agreed(d, m2.serverId, out.key))
  {
    hide Complete, WireOk;
    CompletesExactly(sys.devices[d], w.dev[d], m2, late);
    assert PendingOk(sys, d, sys.devices[d], w.dev[d], m2.serverId);
    assert ValidDevice(sys, d, sys.devices[d]);
    hide ValidSystem;
    if Honest(sys, d, m2.serverId) {
      WireBody(sys, w.wire, w.events, m2.body, d, m2.serverId);
    }
  }

  lemma NewAgreementApart(sys: System, w: World, d: Peer, m2: Message2, late: bool)
    requires Shaped(sys, w) && d in sys.devices && DevicesOk(sys, w.dev, w.restarted, w.events)
    requires Complete(sys.devices[d], w.dev[d], m2, late).1.Completed?
    ensures var out := Complete(sys.devices[d], w.dev[d], m2, late).1;
            forall i :: 0 <= i < |w.events| ==> AgreedApart(sys, w.restarted, w.events[i],
                                                            Agreed(d, m2.serverId, out.key))
  {
    hide Complete, ValidSystem;
    CompletesExactly(sys.devices[d], w.dev[d], m2, late);
    forall i | 0 <= i < |w.events| ensures Below(CountsOn(sys, w.restarted, d), w.dev[d], d, w.events[i]) {
      assert w.events[i] in w.events;
    }
  }

  lemma M2KeepsDevices(sys: System, w: World, d: Peer, m2: Message2, late: bool)
    requires Shaped(sys, w) && DevicesOk(sys, w.dev, w.restarted, w.events) && d in sys.devices
    ensures var next := AfterM2(sys, w, d, m2, late);
            DevicesOk(sys, next.dev, next.restarted, next.events)
  {
    hide Complete, ValidSystem;
    CompletesExactly(sys.devices[d], w.dev[d], m2, late);
    var next := AfterM2(sys, w, d, m2, late);
    var (st, out) := Complete(sys.devices[d], w.dev[d], m2, late);
    assert next.dev == w.dev[d := st];
    forall d' | d' in sys.devices && d' in next.dev
      ensures forall s' :: PendingOk(sys, d', sys.devices[d'], next.dev[d'], s')
      ensures forall e :: e in next.events ==> Below(CountsOn(sys, next.restarted, d'), next.dev[d'], d', e)
    {
      forall s' ensures PendingOk(sys, d', sys.devices[d'], next.dev[d'], s') {
        assert PendingOk(sys, d', sys.devices[d'], w.dev[d'], s');
      }
      assert PendingOk(sys, d', sys.devices[d'], w.dev[d'], m2.serverId);
      forall e | e in next.events ensures Below(CountsOn(sys, next.restarted, d'), next.dev[d'], d', e) {
        if e in w.events {
          assert Below(CountsOn(sys, w.restarted, d'), w.dev[d'], d', e);
        } else {
          assert e == Agreed(d, m2.serverId, out.key);
        }
      }
    }
  }

  lemma M2KeepsAhead(sys: System, w: World, d: Peer, m2: Message2, late: bool)
    requires Shaped(sys, w) && AllAhead(sys, w.dev, w.restarted, w.srv) && d in sys.devices
    ensures var next := AfterM2(sys, w, d, m2, late);
            AllAhead(sys, next.dev, next.restarted, next.srv)
  {
    hide Complete, ValidSystem;
    CompletesExactly(sys.devices[d], w.dev[d], m2, late);
    var next := AfterM2(sys, w, d, m2, late);
    forall d', s' ensures Ahead(sys, next.dev, next.restarted, next.srv, d', s') {
      assert Ahead(sys, w.dev, w.restarted, w.srv, d', s');
    }
  }

  // ---- Every step, every run -----------------------------------------------------------

  lemma BlockKeepsInv(sys: System, w: World, s: Peer, p: Peer)
    requires Inv(sys, w) && s in sys.servers
    ensures Inv(sys, Next(sys, w, OperatorBlock(s, p)))
  {
    hide WireOk, AllCaused, AcceptancesDiffer, DevicesOk, AgreementsDiffer, ValidSystem;
    var next := Next(sys, w, OperatorBlock(s, p));
    forall d, s' ensures Ahead(sys, next.dev, next.restarted, next.srv, d, s') {
      assert Ahead(sys, w.dev, w.restarted, w.srv, d, s');
    }
  }

  /** A restarted device starts at epoch zero, and no longer counts without a gap. */
  lemma RestartKeepsInv(sys: System, w: World, d: Peer)
    requires Inv(sys, w) && d in sys.devices
    ensures Inv(sys, Next(sys, w, Restart(d)))
  {
    hide WireOk, AllCaused, AcceptancesDiffer, AllRemembered, ValidSystem;
    var next := Next(sys, w, Restart(d));
    forall d', s' ensures Ahead(sys, next.dev, next.restarted, next.srv, d', s') {
      assert Ahead(sys, w.dev, w.restarted, w.srv, d', s');
    }
    forall i, k | 0 <= i < k < |w.events| ensures AgreedApart(sys, next.restarted, w.events[i], w.events[k]) {
      assert AgreedApart(sys, w.restarted, w.events[i], w.events[k]);
    }
    forall d' | d' in sys.devices && d' in next.dev
      ensures forall s' :: PendingOk(sys, d', sys.devices[d'], next.dev[d'], s')
      ensures forall e :: e in next.events ==> Below(CountsOn(sys, next.restarted, d'), next.dev[d'], d', e)
    {
      forall e | e in next.events ensures Below(CountsOn(sys, next.restarted, d'), next.dev[d'], d', e) {
        assert Below(CountsOn(sys, w.restarted, d'), w.dev[d'], d', e);
      }
      forall s' ensures PendingOk(sys, d', sys.devices[d'], next.dev[d'], s') {
        assert PendingOk(sys, d', sys.devices[d'], w.dev[d'], s');
      }
    }
  }

  lemma StepKeepsInv(sys: System, w: World, step: Step)
    requires Inv(sys, w)
    ensures Inv(sys, Next(sys, w, step))
  {
    match step
    case BuildStep(d, s, ni, iv, reading, inRange) =>
      if d in sys.devices { BuildKeepsInv(sys, w, d, s, ni, iv, reading, inRange); }
    case DeliverM1(s, m) =>
      if s in sys.servers && CanSend(sys, w.wire, m.m1.body) { M1KeepsInv(sys, w, s, m); }
    case DeliverM2(d, m2, late) =>
      if d in sys.devices && CanSend(sys, w.wire, m2.body) { M2KeepsInv(sys, w, d, m2, late); }
    case OperatorBlock(s, p) =>
      if s in sys.servers { BlockKeepsInv(sys, w, s, p); }
    case Restart(d) =>
      if d in sys.devices { RestartKeepsInv(sys, w, d); }
    case _ =>
      hide AllCaused, AcceptancesDiffer, DevicesOk, AgreementsDiffer, AllAhead, ValidSystem;
  }

  lemma InitialInv(sys: System)
    requires ValidSystem(sys)
    ensures Inv(sys, InitialWorld(sys))
  {
    hide ValidSystem;
  }

  lemma {:induction false} RunKeepsInv(sys: System, steps: seq<Step>)
    requires ValidSystem(sys)
    ensures Inv(sys, Run(sys, steps))
  {
    hide ValidSystem, Inv, Next;
    if steps == [] {
      InitialInv(sys);
    } else {
      RunKeepsInv(sys, steps[..|steps|-1]);
      StepKeepsInv(sys, Run(sys, steps[..|steps|-1]), steps[|steps|-1]);
    }
  }
}
