/** protocol/entity.py, protocol/device.py and protocol/server.py: the two sides of
    the exchange, first as functions on their states, then as the classes. */
module Entities {
  import opened Terms
  import opened SessionLogs
  import opened CounterResolvers
  import opened ClockResolvers
  import opened Rainbow

  datatype AuthError =
    | UnknownPeer | ReplayDetected | BlockedEntity | OutOfCoverage | Integrity | SessionTimeout | NoPeerSecret

  // ---- Device -------------------------------------------------------------------

  datatype DeviceConfig = DeviceConfig(lam: nat, secret: map<Peer, nat>, log: LogConfig, usesClock: bool)

  datatype Pending = Pending(peer: Peer, epoch: nat, pid: Pid, ni: Nonce, root: Key)

  datatype DeviceState = DeviceState(epoch: map<Peer, nat>, pending: map<Peer, Pending>, log: LogState)

  const FRESH_DEVICE := DeviceState(map[], map[], EMPTY_LOG)

  datatype BuildOutcome = Built(m1: Message1) | NotBuilt(error: AuthError)

  datatype CompleteOutcome = Completed(key: SessionKey) | NotCompleted(error: AuthError)

  /** The epoch counter kept for a peer. */
  function Counter(st: DeviceState, peer: Peer): nat {
    if peer in st.epoch then st.epoch[peer] else 0
  }

  /** build_auth_request, given the nonce and IV it draws, the reading of its epoch
      clock and the answer of its coverage predicate. */
  function Build(c: DeviceConfig, st: DeviceState, peer: Peer, ni: Nonce, iv: nat, reading: nat, inRange: bool)
    : (DeviceState, BuildOutcome)
  {
    if peer in st.log.blocked then (st, NotBuilt(BlockedEntity))
    else if !inRange then (st, NotBuilt(OutOfCoverage))
    else if peer !in c.secret then (st, NotBuilt(NoPeerSecret))
    else
      var root := Root(c.lam, c.secret[peer]);
      var epoch := if c.usesClock then reading else Counter(st, peer);
      var pid := H2(c.lam, epoch);
      var body := Sealed(root, iv, Plain1(pid, ni, epoch), NoAad);
      (DeviceState(if c.usesClock then st.epoch else st.epoch[peer := epoch + 1],
                   st.pending[peer := Pending(peer, epoch, pid, ni, root)], st.log),
       Built(Message1(pid, iv, body)))
  }

  /** complete_auth; `late` says that the session's time window has passed. */
  function Complete(c: DeviceConfig, st: DeviceState, m2: Message2, late: bool): (DeviceState, CompleteOutcome) {
    if m2.serverId !in st.pending then (st, NotCompleted(UnknownPeer))
    else
      var p := st.pending[m2.serverId];
      var popped := st.(pending := st.pending - {m2.serverId});
      var failed := popped.(log := AfterFailure(c.log, st.log, p.peer));
      if late then (failed, NotCompleted(SessionTimeout))
      else
        var plain := Decrypt(p.root, m2.iv, m2.body, Bound(p.pid, p.ni));
        if plain.None? then (failed, NotCompleted(Integrity))
        else if !(plain.value.Plain2? && plain.value.epoch == p.epoch) then (failed, NotCompleted(Integrity))
        else (popped.(log := AfterSuccess(st.log, p.peer)),
              Completed(Session(p.root, p.ni, plain.value.nj, p.epoch)))
  }

  /** When a device completes, exactly: it has a session pending with the named server,
      in time, and the body was sealed under that session's root and epoch, bound to
      its pseudonym and nonce. Either way the pending session is used up. */
  lemma CompletesExactly(c: DeviceConfig, st: DeviceState, m2: Message2, late: bool)
    ensures var (next, out) := Complete(c, st, m2, late);
            && next.epoch == st.epoch && next.pending == st.pending - {m2.serverId}
            && st.log.blocked <= next.log.blocked
            && (out.Completed? <==>
                  && m2.serverId in st.pending && !late && m2.body.Sealed? && m2.body.plain.Plain2?
                  && var p := st.pending[m2.serverId];
                  && m2.body == Sealed(p.root, m2.iv, Plain2(m2.body.plain.nj, p.epoch), Bound(p.pid, p.ni)))
            && (out.Completed? ==>
                  var p := st.pending[m2.serverId];
                  out.key == Session(p.root, p.ni, m2.body.plain.nj, p.epoch))
  {
    assert m2.serverId !in st.pending ==> st.pending - {m2.serverId} == st.pending;
  }

  // ---- Server -------------------------------------------------------------------

  /** How a server resolves pseudonyms. The two clock resolvers answer alike, so
      they are one strategy here. */
  datatype Strategy =
    | Scan
    | Table(forward: nat)
    | TimeMemory(lifetime: nat, covered: set<nat>)
    | Clock(drift: nat)

  datatype ServerConfig = ServerConfig(identity: Peer, lam: nat, en: Enrolment, log: LogConfig, strategy: Strategy)

  datatype ServerState = ServerState(log: LogState, nonces: Nonces)

  const FRESH_SERVER := ServerState(EMPTY_LOG, map[])

  datatype ServerOutcome =
    | AuthResult(response: Message2, key: SessionKey, peer: Peer)
    | Rejected(error: AuthError)

  ghost function Resolve(c: ServerConfig, last: map<Peer, nat>, cur: nat, pid: Pid): (r: Resolution)
    requires ValidEnrolment(c.en)
  {
    match c.strategy
    case Scan => ScanResolution(c.en, c.log, last, pid)
    case Table(f) => TableResolution(c.en, f, last, pid)
    case TimeMemory(lifetime, covered) => RainbowResolution(c.en, lifetime, covered, last, pid)
    case Clock(drift) => ClockResolution(c.en, cur, drift, pid)
  }

  /** Whatever the strategy, a pseudonym resolves only to its owner and epoch; with
      counter epochs only to an epoch above the last accepted one, and with clock
      epochs only to one inside the window. */
  lemma ResolveSound(c: ServerConfig, last: map<Peer, nat>, cur: nat, pid: Pid)
    requires ValidEnrolment(c.en) && Resolve(c, last, cur, pid).Found?
    ensures var r := Resolve(c, last, cur, pid);
            && r.peer in c.en.secret && pid == H2(c.en.secret[r.peer], r.epoch)
            && (c.strategy.Clock? ==> cur - c.strategy.drift <= r.epoch <= cur + c.strategy.drift)
            && (!c.strategy.Clock? ==> r.epoch > Last(last, r.peer))
  {
    hide ValidEnrolment;
  }

  function AcceptStep(c: ServerConfig, st: ServerState, cur: nat, p: Peer, epoch: nat, ni: Nonce): (ServerState, bool) {
    if c.strategy.Clock? then
      var ok := !Refused(st.nonces, cur, c.strategy.drift, p, epoch, ni);
      (ServerState(if ok then AfterAccept(st.log, p, epoch) else st.log,
                   AfterNonce(st.nonces, cur, c.strategy.drift, p, epoch, ni)), ok)
    else (st.(log := AfterAccept(st.log, p, epoch)), true)
  }

  /** handle_auth_request once the pseudonym has resolved to (p, epoch). */
  function HandleResolved(c: ServerConfig, st: ServerState, m1: Message1, p: Peer, epoch: nat,
                          nj: Nonce, iv: nat, inRange: bool, acceptAt: nat): (ServerState, ServerOutcome)
    requires p in c.en.secret
  {
    var failed := st.(log := AfterFailure(c.log, st.log, p));
    if p in st.log.blocked then (st, Rejected(BlockedEntity))
    else if !inRange then (failed, Rejected(OutOfCoverage))
    else
      var root := Root(c.en.secret[p], c.lam);
      var plain := Decrypt(root, m1.iv, m1.body, NoAad);
      if plain.None? then (failed, Rejected(Integrity))
      else if !(plain.value.Plain1? && plain.value.pid == m1.pid && plain.value.epoch == epoch)
      then (failed, Rejected(Integrity))
      else
        var ni := plain.value.ni;
        var (accepted, ok) := AcceptStep(c, st, acceptAt, p, epoch, ni);
        if !ok then (accepted, Rejected(ReplayDetected))
        else (accepted.(log := AfterSuccess(accepted.log, p)),
              AuthResult(Message2(c.identity, iv, Sealed(root, iv, Plain2(nj, epoch), Bound(m1.pid, ni))),
                         Session(root, ni, nj, epoch), p))
  }

  /** handle_auth_request, given the nonce and IV it draws, the coverage predicate's
      answer, and the clock readings of its resolve and its accept. */
  ghost function Handle(c: ServerConfig, st: ServerState, m1: Message1, nj: Nonce, iv: nat, inRange: bool,
                        resolveAt: nat, acceptAt: nat): (ServerState, ServerOutcome)
    requires ValidEnrolment(c.en)
  {
    match Resolve(c, st.log.last, resolveAt, m1.pid)
    case Unknown => (st, Rejected(UnknownPeer))
    case Replayed(_, _) => (st, Rejected(ReplayDetected))
    case Found(p, epoch) =>
      ResolveSound(c, st.log.last, resolveAt, m1.pid);
      HandleResolved(c, st, m1, p, epoch, nj, iv, inRange, acceptAt)
  }

  /** Whether a request gets as far as the resolver's accept: the pseudonym resolves to a
      peer in coverage and not blocked, and the body was sealed under its pairwise root
      for this very pseudonym and epoch. */
  ghost predicate CallsAccept(c: ServerConfig, st: ServerState, m1: Message1, inRange: bool, resolveAt: nat)
    requires ValidEnrolment(c.en)
  {
    var r := Resolve(c, st.log.last, resolveAt, m1.pid);
    && r.Found? && r.peer in c.en.secret && r.peer !in st.log.blocked && inRange
    && m1.body.Sealed? && m1.body.iv == m1.iv && m1.body.aad == NoAad
    && m1.body.key == Root(c.en.secret[r.peer], c.lam)
    && m1.body.plain.Plain1? && m1.body.plain.pid == m1.pid && m1.body.plain.epoch == r.epoch
  }

  /** When a server accepts, exactly: the request gets as far as accept, and the nonce
      cache does not object. */
  lemma AcceptsExactly(c: ServerConfig, st: ServerState, m1: Message1, nj: Nonce, iv: nat, inRange: bool,
                       resolveAt: nat, acceptAt: nat)
    requires ValidEnrolment(c.en)
    ensures var r := Resolve(c, st.log.last, resolveAt, m1.pid);
            Handle(c, st, m1, nj, iv, inRange, resolveAt, acceptAt).1.AuthResult? <==>
            && CallsAccept(c, st, m1, inRange, resolveAt)
            && (c.strategy.Clock? ==>
                  !Refused(st.nonces, acceptAt, c.strategy.drift, r.peer, r.epoch, m1.body.plain.ni))
  {
    if Resolve(c, st.log.last, resolveAt, m1.pid).Found? {
      ResolveSound(c, st.log.last, resolveAt, m1.pid);
    }
    hide ValidEnrolment, Resolve;
  }

  /** One incoming M1 with everything the server draws or reads while handling it. */
  datatype Delivery = Delivery(m1: Message1, nj: Nonce, iv: nat, inRange: bool, resolveAt: nat, acceptAt: nat)

  ghost function HandleDelivery(c: ServerConfig, st: ServerState, m: Delivery): (ServerState, ServerOutcome)
    requires ValidEnrolment(c.en)
  {
    Handle(c, st, m.m1, m.nj, m.iv, m.inRange, m.resolveAt, m.acceptAt)
  }

  ghost predicate ReadsClock(c: ServerConfig, st: ServerState, m: Delivery)
    requires ValidEnrolment(c.en)
  {
    c.strategy.Clock? && CallsAccept(c, st, m.m1, m.inRange, m.resolveAt)
  }

  /** What one request can do to a server, for the reasoning about whole runs. */
  lemma HandleEffect(c: ServerConfig, st: ServerState, m: Delivery)
    requires ValidEnrolment(c.en)
    ensures var (next, out) := HandleDelivery(c, st, m);
            && st.log.blocked <= next.log.blocked
            && (out.Rejected? ==> next.log.last == st.log.last)
            && (out.AuthResult? ==>
                  var p, key := out.peer, out.key;
                  && p in c.en.secret && p !in st.log.blocked && next.log.blocked == st.log.blocked
                  && Resolve(c, st.log.last, m.resolveAt, m.m1.pid) == Found(p, key.epoch)
                  && m.m1.pid == H2(c.en.secret[p], key.epoch)
                  && key == Session(Root(c.en.secret[p], c.lam), key.ni, m.nj, key.epoch)
                  && m.m1.body == Sealed(key.root, m.m1.iv, Plain1(m.m1.pid, key.ni, key.epoch), NoAad)
                  && out.response == Message2(c.identity, m.iv, Sealed(key.root, m.iv, Plain2(m.nj, key.epoch),
                                                                       Bound(m.m1.pid, key.ni)))
                  && next.log.last == AdvanceLast(st.log.last, p, key.epoch)
                  && (!c.strategy.Clock? ==> key.epoch > Last(st.log.last, p))
                  && (c.strategy.Clock? ==> key.epoch >= m.resolveAt - c.strategy.drift && ReadsClock(c, st, m)))
  {
    AcceptsExactly(c, st, m.m1, m.nj, m.iv, m.inRange, m.resolveAt, m.acceptAt);
    if Resolve(c, st.log.last, m.resolveAt, m.m1.pid).Found? {
      ResolveSound(c, st.log.last, m.resolveAt, m.m1.pid);
    }
    hide ValidEnrolment, Resolve, CallsAccept;
  }

  /** What one request does to the nonce cache of a clock server: a request that reads
      the clock prunes it, and an accepted one adds its tag. */
  lemma CacheEffect(c: ServerConfig, st: ServerState, m: Delivery, e: nat, tag: seq<byte>)
    requires ValidEnrolment(c.en) && c.strategy.Clock?
    ensures var (next, out) := HandleDelivery(c, st, m);
            var kept := tag in TagsAt(st.nonces, e) && (ReadsClock(c, st, m) ==> m.acceptAt <= e + c.strategy.drift);
            var added := out.AuthResult? && out.key.epoch == e && NonceTag(out.peer, out.key.ni) == tag;
            (tag in TagsAt(next.nonces, e) <==> kept || added) && !(kept && added)
  {
    AcceptsExactly(c, st, m.m1, m.nj, m.iv, m.inRange, m.resolveAt, m.acceptAt);
    if Resolve(c, st.log.last, m.resolveAt, m.m1.pid).Found? {
      ResolveSound(c, st.log.last, m.resolveAt, m.m1.pid);
    }
    hide ValidEnrolment, Resolve, NonceTag;
  }

  // ---- The pairwise-root cache ----------------------------------------------------

  class RootCache {
    const isDevice: bool
    const lam: nat
    const secret: map<Peer, nat>
    var cache: map<Peer, Key>

    /** k*: the device's secret first, the server's second, whoever computes it. */
    function RootOf(peer: Peer): Key
      requires peer in secret
    {
      if isDevice then Root(lam, secret[peer]) else Root(secret[peer], lam)
    }

    ghost predicate Valid()
      reads this
    {
      forall p :: p in cache ==> p in secret && cache[p] == RootOf(p)
    }

    constructor (isDevice: bool, lam: nat, secret: map<Peer, nat>)
      ensures this.isDevice == isDevice && this.lam == lam && this.secret == secret && Valid()
    {
      this.isDevice, this.lam, this.secret, cache := isDevice, lam, secret, map[];
    }

    method Get(peer: Peer) returns (root: Option<Key>)
      requires Valid()
      modifies `cache
      ensures Valid()
      ensures root == if peer in secret then Some(RootOf(peer)) else None
    {
      if peer in cache {
        return Some(cache[peer]);
      }
      if peer !in secret {
        return None;
      }
      var derived := RootOf(peer);
      cache := cache[peer := derived];
      root := Some(derived);
    }

    method Invalidate(peer: Option<Peer>)
      requires Valid()
      modifies `cache
      ensures Valid() && cache == if peer.None? then map[] else old(cache) - {peer.value}
    {
      cache := if peer.None? then map[] else cache - {peer.value};
    }
  }

  // ---- The classes ------------------------------------------------------------------

  class Device {
    const c: DeviceConfig
    const log: SessionLog
    const roots: RootCache
    var epoch: map<Peer, nat>
    var pending: map<Peer, Pending>

    ghost predicate Valid()
      reads this, roots
    {
      && log.cfg == c.log
      && roots.Valid() && roots.isDevice && roots.lam == c.lam && roots.secret == c.secret
    }

    function State(): DeviceState
      reads this, log
    {
      DeviceState(epoch, pending, log.State())
    }

    constructor (c: DeviceConfig)
      ensures this.c == c && Valid() && State() == FRESH_DEVICE
      ensures fresh(log) && fresh(roots)
    {
      this.c := c;
      log := new SessionLog(c.log);
      roots := new RootCache(true, c.lam, c.secret);
      epoch, pending := map[], map[];
    }

    method BuildAuthRequest(peer: Peer, ni: Nonce, iv: nat, reading: nat, inRange: bool) returns (out: BuildOutcome)
      requires Valid()
      modifies this, roots
      ensures Valid()
      ensures (State(), out) == Build(c, old(State()), peer, ni, iv, reading, inRange)
    {
      if peer in log.blocked {
        return NotBuilt(BlockedEntity);
      }
      if !inRange {
        return NotBuilt(OutOfCoverage);
      }
      var root := roots.Get(peer);
      if root.None? {
        return NotBuilt(NoPeerSecret);
      }
      var t := if c.usesClock then reading else if peer in epoch then epoch[peer] else 0;
      var pid := H2(c.lam, t);
      var body := Sealed(root.value, iv, Plain1(pid, ni, t), NoAad);
      pending := pending[peer := Pending(peer, t, pid, ni, root.value)];
      if !c.usesClock {
        epoch := epoch[peer := t + 1];
      }
      out := Built(Message1(pid, iv, body));
    }

    method CompleteAuth(m2: Message2, late: bool) returns (out: CompleteOutcome)
      requires Valid()
      modifies this, log
      ensures Valid()
      ensures (State(), out) == Complete(c, old(State()), m2, late)
    {
      if m2.serverId !in pending {
        return NotCompleted(UnknownPeer);
      }
      var p := pending[m2.serverId];
      pending := pending - {m2.serverId};
      if late {
        var _ := log.RecordFailure(p.peer);
        return NotCompleted(SessionTimeout);
      }
      var plain := Decrypt(p.root, m2.iv, m2.body, Bound(p.pid, p.ni));
      if plain.None? {
        var _ := log.RecordFailure(p.peer);
        return NotCompleted(Integrity);
      }
      if !(plain.value.Plain2? && plain.value.epoch == p.epoch) {
        var _ := log.RecordFailure(p.peer);
        return NotCompleted(Integrity);
      }
      log.RecordSuccess(p.peer);
      out := Completed(Session(p.root, p.ni, plain.value.nj, p.epoch));
    }
  }

  /** The five resolvers a server can be given. */
  datatype Resolver =
    | Linear(linear: LinearScan)
    | Counting(counting: CounterTable)
    | Chains(chains: TimeMemoryTable)
    | ClockLinear(clockScan: ClockScan, cache: NonceCache)
    | ClockTabled(clockTable: ClockTable, cache: NonceCache)
  {
    function Objects(): set<object> {
      match this
      case Linear(r) => {r}
      case Counting(r) => {r}
      case Chains(r) => {r}
      case ClockLinear(r, n) => {r, n}
      case ClockTabled(r, n) => {r, n}
    }

    /** Attached to this enrolment and log, and internally consistent. */
    ghost predicate Attached(en: Enrolment, log: SessionLog)
      reads Objects(), log
    {
      ValidEnrolment(en) &&
      match this
      case Linear(r) => r.en == en && r.log == log
      case Counting(r) => r.en == en && r.log == log && r.Valid()
      case Chains(r) => r.s.en == en && r.log == log && r.Valid()
      case ClockLinear(r, n) => r.en == en && n.log == log && n.drift == r.drift
      case ClockTabled(r, n) => r.en == en && n.log == log && n.drift == r.drift && r.Valid()
    }

    ghost function AsStrategy(en: Enrolment, log: SessionLog): Strategy
      requires Attached(en, log)
      reads Objects(), log
    {
      match this
      case Linear(_) => Scan
      case Counting(r) => Table(r.forward)
      case Chains(r) => TimeMemory(r.s.lifetime, Coverage(r.s, r.tables))
      case ClockLinear(r, _) => Clock(r.drift)
      case ClockTabled(r, _) => Clock(r.drift)
    }

    ghost function NonceState(): Nonces
      reads Objects()
    {
      match this
      case ClockLinear(_, n) => n.nonces
      case ClockTabled(_, n) => n.nonces
      case _ => map[]
    }
  }

  class Server {
    const identity: Peer
    const lam: nat
    const en: Enrolment
    const log: SessionLog
    const resolver: Resolver
    const roots: RootCache

    ghost predicate Valid()
      reads log, roots, resolver.Objects()
    {
      && resolver.Attached(en, log)
      && roots.Valid() && !roots.isDevice && roots.lam == lam && roots.secret == en.secret
    }

    ghost function Config(): ServerConfig
      requires Valid()
      reads log, roots, resolver.Objects()
    {
      ServerConfig(identity, lam, en, log.cfg, resolver.AsStrategy(en, log))
    }

    ghost function State(): ServerState
      reads log, resolver.Objects()
    {
      ServerState(log.State(), resolver.NonceState())
    }

    constructor (identity: Peer, lam: nat, en: Enrolment, log: SessionLog, resolver: Resolver)
      requires resolver.Attached(en, log)
      ensures this.identity == identity && this.lam == lam && this.en == en
      ensures this.log == log && this.resolver == resolver && fresh(roots)
      ensures Valid()
    {
      this.identity, this.lam, this.en, this.log, this.resolver := identity, lam, en, log, resolver;
      roots := new RootCache(false, lam, en.secret);
    }

    method ResolvePseudonym(pid: Pid, cur: nat) returns (r: Resolution)
      requires Valid()
      modifies resolver.Objects()
      ensures Valid() && Config() == old(Config()) && State() == old(State())
      ensures r == Resolve(old(Config()), old(log.last), cur, pid)
    {
      match resolver
      case Linear(s) => r := s.Resolve(pid);
      case Counting(s) => r := s.Resolve(pid);
      case Chains(s) => r := s.Resolve(pid);
      case ClockLinear(s, _) => r := s.Resolve(pid, cur);
      case ClockTabled(s, _) => r := s.Resolve(pid, cur);
    }

    method AcceptRequest(p: Peer, epoch: nat, ni: Nonce, cur: nat) returns (ok: bool)
      requires Valid() && p in en.secret
      modifies resolver.Objects(), log`last
      ensures Valid() && Config() == old(Config())
      ensures (State(), ok) == AcceptStep(old(Config()), old(State()), cur, p, epoch, ni)
    {
      ok := true;
      match resolver
      case Linear(s) => s.Accept(p, epoch);
      case Counting(s) => s.Accept(p, epoch);
      case Chains(s) => s.Accept(p, epoch);
      case ClockLinear(_, n) => ok := n.Accept(p, epoch, ni, cur);
      case ClockTabled(_, n) => ok := n.Accept(p, epoch, ni, cur);
    }

    method NoteFailure(p: Peer)
      requires Valid()
      modifies log
      ensures Valid() && Config() == old(Config())
      ensures State() == old(State()).(log := AfterFailure(old(Config()).log, old(State()).log, p))
    {
      var _ := log.RecordFailure(p);
    }

    method NoteSuccess(p: Peer)
      requires Valid()
      modifies log
      ensures Valid() && Config() == old(Config())
      ensures State() == old(State()).(log := AfterSuccess(old(State()).log, p))
    {
      log.RecordSuccess(p);
    }

    method PairwiseRoot(p: Peer) returns (root: Key)
      requires Valid() && p in en.secret
      modifies roots
      ensures Valid() && Config() == old(Config()) && State() == old(State())
      ensures root == Root(en.secret[p], lam)
    {
      var r := roots.Get(p);
      root := r.value;
    }

    method HandleAuthRequest(m1: Message1, nj: Nonce, iv: nat, inRange: bool, resolveAt: nat, acceptAt: nat)
      returns (out: ServerOutcome)
      requires Valid()
      modifies log, roots, resolver.Objects()
      ensures Valid() && Config() == old(Config())
      ensures (State(), out) == Handle(old(Config()), old(State()), m1, nj, iv, inRange, resolveAt, acceptAt)
    {
      var r := ResolvePseudonym(m1.pid, resolveAt);
      if r.Unknown? {
        return Rejected(UnknownPeer);
      }
      if r.Replayed? {
        return Rejected(ReplayDetected);
      }
      ResolveSound(Config(), log.last, resolveAt, m1.pid);
      out := VerifyAndReply(m1, r.peer, r.epoch, nj, iv, inRange, acceptAt);
    }

    /** The part after resolution: check, decrypt, compare, accept, derive, reply. */
    method VerifyAndReply(m1: Message1, p: Peer, epoch: nat, nj: Nonce, iv: nat, inRange: bool, acceptAt: nat)
      returns (out: ServerOutcome)
      requires Valid() && p in en.secret
      modifies log, roots, resolver.Objects()
      ensures Valid() && Config() == old(Config())
      ensures (State(), out) == HandleResolved(old(Config()), old(State()), m1, p, epoch, nj, iv, inRange, acceptAt)
    {
      hide AcceptStep, ValidEnrolment;
      if p in log.blocked {
        return Rejected(BlockedEntity);
      }
      if !inRange {
        NoteFailure(p);
        return Rejected(OutOfCoverage);
      }
      var root := PairwiseRoot(p);
      var plain := Decrypt(root, m1.iv, m1.body, NoAad);
      if plain.None? {
        NoteFailure(p);
        return Rejected(Integrity);
      }
      if !(plain.value.Plain1? && plain.value.pid == m1.pid && plain.value.epoch == epoch) {
        NoteFailure(p);
        return Rejected(Integrity);
      }
      var ni := plain.value.ni;
      var ok := AcceptRequest(p, epoch, ni, acceptAt);
      if !ok {
        return Rejected(ReplayDetected);
      }
      NoteSuccess(p);
      var key := Session(root, ni, nj, epoch);
      var body := Sealed(root, iv, Plain2(nj, epoch), Bound(m1.pid, ni));
      out := AuthResult(Message2(identity, iv, body), key, p);
    }
  }
}
