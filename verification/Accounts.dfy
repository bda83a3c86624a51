/** Failure accounting of both sides, read off requests and replies: what counts as a failed
    attempt of a peer, what resets the count, and when a run of them blocks the peer. */
module Accounts {
  import opened Terms
  import opened SessionLogs
  import opened CounterResolvers
  import opened ClockResolvers
  import opened Entities

  // ---- The server ----------------------------------------------------------------------

  /** Sealed by p for this server, this very pseudonym and this epoch. */
  predicate Genuine(c: ServerConfig, p: Peer, epoch: nat, m1: Message1)
    requires p in c.en.secret
  {
    && m1.body.Sealed? && m1.body.plain.Plain1?
    && m1.body == Sealed(Root(c.en.secret[p], c.lam), m1.iv, Plain1(m1.pid, m1.body.plain.ni, epoch), NoAad)
  }

  ghost function Resolved(c: ServerConfig, st: ServerState, m: Delivery): Resolution
    requires ValidEnrolment(c.en)
  {
    Resolve(c, st.log.last, m.resolveAt, m.m1.pid)
  }

  /** The pseudonym resolves to p, but p is out of coverage or the M1 is not p's. */
  ghost predicate FailsFor(c: ServerConfig, st: ServerState, m: Delivery, p: Peer)
    requires ValidEnrolment(c.en)
  {
    var r := Resolved(c, st, m);
    r.Found? && r.peer == p && p in c.en.secret && (!m.inRange || !Genuine(c, p, r.epoch, m.m1))
  }

  ghost predicate SucceedsFor(c: ServerConfig, st: ServerState, m: Delivery, p: Peer)
    requires ValidEnrolment(c.en)
  {
    var out := HandleDelivery(c, st, m).1;
    out.AuthResult? && out.peer == p
  }

  lemma OpensExactly(c: ServerConfig, p: Peer, epoch: nat, m1: Message1)
    requires p in c.en.secret
    ensures var plain := Decrypt(Root(c.en.secret[p], c.lam), m1.iv, m1.body, NoAad);
            Genuine(c, p, epoch, m1) <==>
              plain.Some? && plain.value.Plain1? && plain.value.pid == m1.pid && plain.value.epoch == epoch
  {}

  /** What every M1 is answered with. The checks come in this order. */
  lemma OutcomeExactly(c: ServerConfig, st: ServerState, m: Delivery)
    requires ValidEnrolment(c.en)
    ensures var (r, out) := (Resolved(c, st, m), HandleDelivery(c, st, m).1);
            && (r.Found? ==> r.peer in c.en.secret)
            && (out == Rejected(UnknownPeer) <==> r.Unknown?)
            && (out == Rejected(BlockedEntity) <==> r.Found? && r.peer in st.log.blocked)
            && (out == Rejected(OutOfCoverage) <==> r.Found? && r.peer !in st.log.blocked && !m.inRange)
            && (out == Rejected(Integrity) <==>
                  r.Found? && r.peer !in st.log.blocked && m.inRange && !Genuine(c, r.peer, r.epoch, m.m1))
            && (out == Rejected(ReplayDetected) <==>
                  r.Replayed? ||
                  (r.Found? && r.peer !in st.log.blocked && m.inRange && Genuine(c, r.peer, r.epoch, m.m1)
                   && c.strategy.Clock?
                   && Refused(st.nonces, m.acceptAt, c.strategy.drift, r.peer, r.epoch, m.m1.body.plain.ni)))
            && (out.Rejected? ==> out.error in {UnknownPeer, BlockedEntity, OutOfCoverage, Integrity, ReplayDetected})
  {
    var r := Resolved(c, st, m);
    if r.Found? {
      ResolveSound(c, st.log.last, m.resolveAt, m.m1.pid);
      OpensExactly(c, r.peer, r.epoch, m.m1);
    }
    hide ValidEnrolment, Resolve, Genuine, Refused, Decrypt;
  }

  /** What one delivery does to the account of a peer: a success clears it, a failure adds
      one and blocks at maxAttempts, and nothing else touches it. */
  lemma DeliveryAccount(c: ServerConfig, st: ServerState, m: Delivery, p: Peer)
    requires ValidEnrolment(c.en)
    ensures var next := HandleDelivery(c, st, m).0;
            var fails := FailsFor(c, st, m, p) && p !in st.log.blocked;
            && Failures(next.log, p) == (if SucceedsFor(c, st, m, p) then 0
                                         else if fails then Failures(st.log, p) + 1 else Failures(st.log, p))
            && (p in next.log.blocked <==>
                  p in st.log.blocked || (fails && Failures(st.log, p) + 1 >= c.log.maxAttempts))
            && !(fails && SucceedsFor(c, st, m, p))
  {
    var r := Resolved(c, st, m);
    if r.Found? {
      ResolveSound(c, st.log.last, m.resolveAt, m.m1.pid);
      OpensExactly(c, r.peer, r.epoch, m.m1);
    }
    hide ValidEnrolment, Resolve, Genuine, Refused, Decrypt, AdvanceLast, AfterNonce;
  }

  /** ... and the listeners are told exactly when it blocks somebody. */
  lemma DeliveryNotices(c: ServerConfig, st: ServerState, m: Delivery)
    requires ValidEnrolment(c.en)
    ensures var next := HandleDelivery(c, st, m).0;
            && next.log.listeners == st.log.listeners
            && (next.log.blocked == st.log.blocked ==> next.log.notices == st.log.notices)
            && (forall p :: p in next.log.blocked && p !in st.log.blocked ==>
                  && next.log.blocked == st.log.blocked + {p}
                  && next.log.notices == st.log.notices + NoticesTo(st.log.listeners, p))
  {
    if Resolved(c, st, m).Found? { ResolveSound(c, st.log.last, m.resolveAt, m.m1.pid); }
    hide ValidEnrolment, Resolve, Refused, Decrypt, AdvanceLast, AfterNonce, NoticesTo;
  }

  datatype ServerCall = Deliver(m: Delivery) | BlockPeer(peer: Peer)

  ghost function ServerStep(c: ServerConfig, st: ServerState, call: ServerCall): ServerState
    requires ValidEnrolment(c.en)
  {
    match call
    case Deliver(m) => HandleDelivery(c, st, m).0
    case BlockPeer(p) => st.(log := AfterBlock(st.log, p))
  }

  ghost function ServerAfter(c: ServerConfig, calls: seq<ServerCall>): ServerState
    requires ValidEnrolment(c.en)
  {
    if calls == [] then FRESH_SERVER else ServerStep(c, ServerAfter(c, calls[..|calls|-1]), calls[|calls|-1])
  }

  /** Call i is a failed attempt of p. */
  ghost predicate FailedAt(c: ServerConfig, calls: seq<ServerCall>, p: Peer, i: int)
    requires ValidEnrolment(c.en)
  {
    0 <= i < |calls| && calls[i].Deliver? && FailsFor(c, ServerAfter(c, calls[..i]), calls[i].m, p)
  }

  /** Call i gives p an AuthResult. */
  ghost predicate AcceptedAt(c: ServerConfig, calls: seq<ServerCall>, p: Peer, i: int)
    requires ValidEnrolment(c.en)
  {
    0 <= i < |calls| && calls[i].Deliver? && SucceedsFor(c, ServerAfter(c, calls[..i]), calls[i].m, p)
  }

  /** Failed attempts of p after its last AuthResult. */
  ghost function FailedSince(c: ServerConfig, calls: seq<ServerCall>, p: Peer): nat
    requires ValidEnrolment(c.en)
  {
    if calls == [] then 0
    else
      var n := |calls| - 1;
      if AcceptedAt(c, calls, p, n) then 0
      else FailedSince(c, calls[..n], p) + if FailedAt(c, calls, p, n) then 1 else 0
  }

  /** Attempt i of p failed, and was the last of maxAttempts with no AuthResult between. */
  ghost predicate OneTooMany(c: ServerConfig, calls: seq<ServerCall>, p: Peer, i: int)
    requires ValidEnrolment(c.en)
  {
    FailedAt(c, calls, p, i) && FailedSince(c, calls[..i+1], p) >= c.log.maxAttempts
  }

  ghost predicate BlockDeserved(c: ServerConfig, calls: seq<ServerCall>, p: Peer)
    requires ValidEnrolment(c.en)
  {
    (exists i :: 0 <= i < |calls| && calls[i] == BlockPeer(p)) ||
    exists i :: 0 <= i < |calls| && OneTooMany(c, calls, p, i)
  }

  lemma SamePrefix(c: ServerConfig, calls: seq<ServerCall>, p: Peer, i: int)
    requires ValidEnrolment(c.en) && 0 <= i < |calls| - 1
    ensures OneTooMany(c, calls, p, i) <==> OneTooMany(c, calls[..|calls|-1], p, i)
  {
    hide ValidEnrolment, ServerAfter, FailedSince, FailsFor;
    var before := calls[..|calls|-1];
    assert before[..i] == calls[..i] && before[..i+1] == calls[..i+1] && before[i] == calls[i];
  }

  lemma DeservedOneMore(c: ServerConfig, calls: seq<ServerCall>, p: Peer)
    requires ValidEnrolment(c.en) && calls != []
    ensures var n := |calls| - 1;
            BlockDeserved(c, calls, p) <==>
              BlockDeserved(c, calls[..n], p) || calls[n] == BlockPeer(p) || OneTooMany(c, calls, p, n)
  {
    hide ValidEnrolment, OneTooMany;
    var n := |calls| - 1;
    var before := calls[..n];
    forall i | 0 <= i < n
      ensures before[i] == calls[i] && (OneTooMany(c, calls, p, i) <==> OneTooMany(c, before, p, i))
    {
      SamePrefix(c, calls, p, i);
    }
  }

  /** A server has blocked p exactly when it was told to, or maxAttempts deliveries whose
      pseudonym resolved to p failed coverage, decryption or match with no AuthResult for p
      between; until then the log counts just those since the last AuthResult. */
  lemma {:induction false} ServerBlocksExactly(c: ServerConfig, calls: seq<ServerCall>, p: Peer)
    requires ValidEnrolment(c.en)
    ensures var st := ServerAfter(c, calls);
            && (p in st.log.blocked <==> BlockDeserved(c, calls, p))
            && (p !in st.log.blocked ==> Failures(st.log, p) == FailedSince(c, calls, p))
  {
    hide ValidEnrolment;
    if calls != [] {
      var n := |calls| - 1;
      ServerBlocksExactly(c, calls[..n], p);
      DeservedOneMore(c, calls, p);
      assert calls[..n+1] == calls;
      hide BlockDeserved, FailsFor, SucceedsFor, HandleDelivery;
      if calls[n].Deliver? { DeliveryAccount(c, ServerAfter(c, calls[..n]), calls[n].m, p); }
    }
  }

  // ---- The device -----------------------------------------------------------------------

  /** The server's reply to this very session: its root, epoch, pseudonym and N_i. */
  predicate Answers(p: Pending, m2: Message2) {
    && m2.body.Sealed? && m2.body.plain.Plain2?
    && m2.body == Sealed(p.root, m2.iv, Plain2(m2.body.plain.nj, p.epoch), Bound(p.pid, p.ni))
  }

  /** What every M2 is answered with. The checks come in this order. */
  lemma CompletionExactly(c: DeviceConfig, st: DeviceState, m2: Message2, late: bool)
    ensures var (s, out) := (m2.serverId, Complete(c, st, m2, late).1);
            && (out == NotCompleted(UnknownPeer) <==> s !in st.pending)
            && (out == NotCompleted(SessionTimeout) <==> s in st.pending && late)
            && (out == NotCompleted(Integrity) <==> s in st.pending && !late && !Answers(st.pending[s], m2))
            && (out.Completed? <==> s in st.pending && !late && Answers(st.pending[s], m2))
            && (out.NotCompleted? ==> out.error in {UnknownPeer, SessionTimeout, Integrity})
  {}

  /** What every request to build is answered with. The checks come in this order. */
  lemma BuildsExactly(c: DeviceConfig, st: DeviceState, s: Peer, ni: Nonce, iv: nat, reading: nat, inRange: bool)
    ensures var (next, out) := Build(c, st, s, ni, iv, reading, inRange);
            && (out == NotBuilt(BlockedEntity) <==> s in st.log.blocked)
            && (out == NotBuilt(OutOfCoverage) <==> s !in st.log.blocked && !inRange)
            && (out == NotBuilt(NoPeerSecret) <==> s !in st.log.blocked && inRange && s !in c.secret)
            && (out.Built? <==> s !in st.log.blocked && inRange && s in c.secret)
            && next.log == st.log && (out.NotBuilt? ==> next == st)
            && (out.Built? ==>
                  var t := out.m1.pid.epoch;
                  && t == (if c.usesClock then reading else Counter(st, s))
                  && (forall p :: Counter(next, p) == Counter(st, p) + if p == s && !c.usesClock then 1 else 0)
                  && s in next.pending && next.pending - {s} == st.pending - {s}
                  && var p := next.pending[s];
                  && p == Pending(s, t, out.m1.pid, ni, Root(c.lam, c.secret[s]))
                  && out.m1 == Message1(H2(c.lam, t), iv, Sealed(p.root, iv, Plain1(p.pid, p.ni, p.epoch), NoAad)))
  {}

  datatype DeviceCall =
    | BuildFor(peer: Peer, ni: Nonce, iv: nat, reading: nat, inRange: bool)
    | Receive(m2: Message2, late: bool)
    | BlockServer(peer: Peer)

  function DeviceStep(c: DeviceConfig, st: DeviceState, call: DeviceCall): DeviceState {
    match call
    case BuildFor(s, ni, iv, reading, inRange) => Build(c, st, s, ni, iv, reading, inRange).0
    case Receive(m2, late) => Complete(c, st, m2, late).0
    case BlockServer(s) => st.(log := AfterBlock(st.log, s))
  }

  function DeviceAfter(c: DeviceConfig, calls: seq<DeviceCall>): DeviceState {
    if calls == [] then FRESH_DEVICE else DeviceStep(c, DeviceAfter(c, calls[..|calls|-1]), calls[|calls|-1])
  }

  /** A completion that uses up a session pending with s and fails: too late, not to be
      opened, or for another epoch. */
  predicate SessionFails(st: DeviceState, call: DeviceCall, s: Peer) {
    call.Receive? && call.m2.serverId == s && s in st.pending && (call.late || !Answers(st.pending[s], call.m2))
  }

  predicate SessionCompletes(st: DeviceState, call: DeviceCall, s: Peer) {
    call.Receive? && call.m2.serverId == s && s in st.pending && !call.late && Answers(st.pending[s], call.m2)
  }

  predicate SessionFailedAt(c: DeviceConfig, calls: seq<DeviceCall>, s: Peer, i: int) {
    0 <= i < |calls| && SessionFails(DeviceAfter(c, calls[..i]), calls[i], s)
  }

  predicate SessionCompletedAt(c: DeviceConfig, calls: seq<DeviceCall>, s: Peer, i: int) {
    0 <= i < |calls| && SessionCompletes(DeviceAfter(c, calls[..i]), calls[i], s)
  }

  /** Failed sessions with s after the last completed one. */
  function SessionsFailedSince(c: DeviceConfig, calls: seq<DeviceCall>, s: Peer): nat {
    if calls == [] then 0
    else
      var n := |calls| - 1;
      if SessionCompletedAt(c, calls, s, n) then 0
      else SessionsFailedSince(c, calls[..n], s) + if SessionFailedAt(c, calls, s, n) then 1 else 0
  }

  predicate SessionTooMany(c: DeviceConfig, calls: seq<DeviceCall>, s: Peer, i: int) {
    SessionFailedAt(c, calls, s, i) && SessionsFailedSince(c, calls[..i+1], s) >= c.log.maxAttempts
  }

  predicate ServerBlockDeserved(c: DeviceConfig, calls: seq<DeviceCall>, s: Peer) {
    (exists i :: 0 <= i < |calls| && calls[i] == BlockServer(s)) ||
    exists i :: 0 <= i < |calls| && SessionTooMany(c, calls, s, i)
  }

  lemma SameSessions(c: DeviceConfig, calls: seq<DeviceCall>, s: Peer, i: int)
    requires 0 <= i < |calls| - 1
    ensures SessionTooMany(c, calls, s, i) <==> SessionTooMany(c, calls[..|calls|-1], s, i)
  {
    hide DeviceAfter, SessionsFailedSince, SessionFails;
    var before := calls[..|calls|-1];
    assert before[..i] == calls[..i] && before[..i+1] == calls[..i+1] && before[i] == calls[i];
  }

  lemma ServerDeservedOneMore(c: DeviceConfig, calls: seq<DeviceCall>, s: Peer)
    requires calls != []
    ensures var n := |calls| - 1;
            ServerBlockDeserved(c, calls, s) <==>
              ServerBlockDeserved(c, calls[..n], s) || calls[n] == BlockServer(s) || SessionTooMany(c, calls, s, n)
  {
    hide SessionTooMany;
    var n := |calls| - 1;
    var before := calls[..n];
    forall i | 0 <= i < n
      ensures before[i] == calls[i] && (SessionTooMany(c, calls, s, i) <==> SessionTooMany(c, before, s, i))
    {
      SameSessions(c, calls, s, i);
    }
  }

  /** What one call does to the account of a server: a completion clears it, a failed session
      adds one and blocks at maxAttempts, and nothing else touches it. */
  lemma CallAccount(c: DeviceConfig, st: DeviceState, call: DeviceCall, s: Peer)
    requires forall p :: p in st.pending ==> st.pending[p].peer == p
    ensures var next := DeviceStep(c, st, call);
            var fails := SessionFails(st, call, s) && s !in st.log.blocked;
            && (forall p :: p in next.pending ==> next.pending[p].peer == p)
            && Failures(next.log, s) == (if SessionCompletes(st, call, s) then 0
                                         else if fails then Failures(st.log, s) + 1 else Failures(st.log, s))
            && (s in next.log.blocked <==>
                  s in st.log.blocked || call == BlockServer(s)
                  || (fails && Failures(st.log, s) + 1 >= c.log.maxAttempts))
  {
    match call
    case BuildFor(s', ni, iv, reading, inRange) => BuildsExactly(c, st, s', ni, iv, reading, inRange);
    case Receive(m2, late) => CompletionExactly(c, st, m2, late);
    case BlockServer(s') =>
  }

  /** A device has blocked s exactly when it was told to, or maxAttempts completions that used
      up a session pending with s were late, did not open or had another epoch, with no
      completed session with s between; until then the log counts just those since the last
      completed one. */
  lemma {:induction false} DeviceBlocksExactly(c: DeviceConfig, calls: seq<DeviceCall>, s: Peer)
    ensures var st := DeviceAfter(c, calls);
            && (forall p :: p in st.pending ==> st.pending[p].peer == p)
            && (s in st.log.blocked <==> ServerBlockDeserved(c, calls, s))
            && (s !in st.log.blocked ==> Failures(st.log, s) == SessionsFailedSince(c, calls, s))
  {
    if calls != [] {
      var n := |calls| - 1;
      DeviceBlocksExactly(c, calls[..n], s);
      ServerDeservedOneMore(c, calls, s);
      assert calls[..n+1] == calls;
      hide ServerBlockDeserved, SessionFails, SessionCompletes, DeviceStep;
      CallAccount(c, DeviceAfter(c, calls[..n]), calls[n], s);
    }
  }

  /** Three rounds with a forged reply, and the fourth request is refused. */
  function ForgedRounds(s: Peer, n: nat): seq<DeviceCall> {
    if n == 0 then []
    else ForgedRounds(s, n - 1) + [BuildFor(s, Nonce([]), 0, 0, true)] + [Receive(Message2(s, 0, Junk(0)), false)]
  }

  lemma {:induction false} ForgedRoundsBlock(c: DeviceConfig, s: Peer, n: nat)
    requires s in c.secret && n <= c.log.maxAttempts && c.log.maxAttempts >= 1
    ensures var st := DeviceAfter(c, ForgedRounds(s, n));
            && (s in st.log.blocked <==> n == c.log.maxAttempts) && (n < c.log.maxAttempts ==> Failures(st.log, s) == n)
            && forall p :: p in st.pending ==> st.pending[p].peer == p
  {
    if n > 0 {
      ForgedRoundsBlock(c, s, n - 1);
      var calls := ForgedRounds(s, n - 1);
      var build, forged := BuildFor(s, Nonce([]), 0, 0, true), Receive(Message2(s, 0, Junk(0)), false);
      assert (calls + [build])[..|calls|] == calls;
      assert (calls + [build] + [forged])[..|calls|+1] == calls + [build];
      var st := DeviceAfter(c, calls);
      var built := DeviceStep(c, st, build);
      BuildsExactly(c, st, s, Nonce([]), 0, 0, true);
      hide Build, Complete, DeviceStep;
      CallAccount(c, st, build, s);
      CallAccount(c, built, forged, s);
      assert built.log == st.log && s in built.pending;
    }
  }
}
