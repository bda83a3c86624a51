/** What every run of the network keeps: injective authentication, injective agreement,
    and permanent blocking. */
module Theorems {
  import opened Terms
  import opened SessionLogs
  import opened CounterResolvers
  import opened ClockResolvers
  import opened Entities
  import opened Network
  import opened Sessions

  // ---- Injective correspondence ------------------------------------------------------

  /** Event j, before k, is what k answers to. */
  predicate Answers(events: seq<Event>, k: int, j: int) {
    0 <= j < k < |events| && events[j] == Cause(events[k])
  }

  ghost function Origin(events: seq<Event>, k: int): int {
    if j :| Answers(events, k, j) then j else -1
  }

  predicate AcceptanceAt(sys: System, events: seq<Event>, k: int) {
    0 <= k < |events| && events[k].Accepted? && Honest(sys, events[k].device, events[k].server)
  }

  lemma HasOrigin(sys: System, events: seq<Event>, k: int)
    requires AllCaused(sys, events) && 0 <= k < |events|
    requires Honest(sys, events[k].device, events[k].server) && !events[k].Started?
    ensures Answers(events, k, Origin(events, k)) && KeyOfPair(sys, events[k])
  {
    assert Caused(sys, events, k);
    var j :| 0 <= j < k && events[..k][j] == Cause(events[k]);
    assert Answers(events, k, j);
  }

  /** An acceptance has a build of its own, unless the server's clock has outrun an earlier
      one of the same build. */
  ghost predicate HasOwnBuild(sys: System, events: seq<Event>, readings: seq<Reading>, k: int)
    requires AcceptanceAt(sys, events, k)
  {
    var e, j := events[k], Origin(events, k);
    && 0 <= j < k && events[j] == Started(e.device, e.server, e.key.epoch, e.key.ni)
    && (forall i :: 0 <= i < k && AcceptanceAt(sys, events, i) && Origin(events, i) == j ==>
          Outrun(sys, readings, e, i, k))
    && (!sys.servers[e.server].strategy.Clock? ==>
          forall i :: i != k && AcceptanceAt(sys, events, i) ==> Origin(events, i) != j)
  }

  lemma AcceptanceOrigin(sys: System, events: seq<Event>, readings: seq<Reading>, k: int)
    requires AllCaused(sys, events) && AcceptancesDiffer(sys, events, readings) && AcceptanceAt(sys, events, k)
    ensures HasOwnBuild(sys, events, readings, k)
  {
    HasOrigin(sys, events, k);
    forall i | i != k && AcceptanceAt(sys, events, i) && Origin(events, i) == Origin(events, k)
      ensures events[i].server == events[k].server
      ensures if i < k then Outrun(sys, readings, events[k], i, k) else Outrun(sys, readings, events[i], k, i)
    {
      HasOrigin(sys, events, i);
      assert !Differ(events[if i < k then i else k], events[if i < k then k else i]);
    }
  }

  /** In every run: whenever an honest server accepts (peer, epoch, N_i) of an honest
      device, that device earlier built exactly that M1 for that server, and Origin picks
      such a build. A server with counter epochs never lets two acceptances share one. A
      server with clock epochs lets an acceptance share an earlier one's only if one of its
      accept readings in between, or this one's own, had left the epoch's window. */
  lemma InjectiveDeviceAuthentication(sys: System, steps: seq<Step>)
    requires ValidSystem(sys)
    ensures var w := Run(sys, steps);
            forall k :: AcceptanceAt(sys, w.events, k) ==> HasOwnBuild(sys, w.events, w.readings, k)
  {
    hide ValidSystem;
    RunKeepsInv(sys, steps);
    var w := Run(sys, steps);
    hide AllCaused, AcceptancesDiffer, HasOwnBuild;
    forall k | AcceptanceAt(sys, w.events, k) ensures HasOwnBuild(sys, w.events, w.readings, k) {
      AcceptanceOrigin(sys, w.events, w.readings, k);
    }
  }

  // ---- Runs of a few steps ---------------------------------------------------------------

  lemma StartShaped(sys: System)
    requires ValidSystem(sys)
    ensures Shaped(sys, InitialWorld(sys))
  {
    hide ValidSystem;
  }

  lemma OnWire(sys: System, wire: set<Body>, b: Body)
    requires ValidSystem(sys) && b in wire
    ensures CanSend(sys, wire, b)
  {
    hide ValidSystem, HonestRoot;
  }

  lemma AfterOne(sys: System, w: World, steps: seq<Step>, step: Step)
    requires Shaped(sys, w)
    ensures After(sys, w, steps + [step]) == Next(sys, After(sys, w, steps), step)
  {
    hide Next, ValidSystem;
    assert (steps + [step])[..|steps|] == steps;
  }

  lemma OneStep(sys: System, w: World, a: Step)
    requires Shaped(sys, w)
    ensures After(sys, w, [a]) == Next(sys, w, a)
  {
    hide Next, ValidSystem;
    AfterOne(sys, w, [], a);
    assert [] + [a] == [a];
  }

  lemma TwoSteps(sys: System, w: World, a: Step, b: Step)
    requires Shaped(sys, w)
    ensures After(sys, w, [a, b]) == Next(sys, Next(sys, w, a), b)
  {
    hide Next, ValidSystem, After;
    OneStep(sys, w, a);
    AfterOne(sys, w, [a], b);
    assert [a] + [b] == [a, b];
  }

  lemma ThreeSteps(sys: System, w: World, a: Step, b: Step, c: Step)
    requires Shaped(sys, w)
    ensures After(sys, w, [a, b, c]) == Next(sys, Next(sys, Next(sys, w, a), b), c)
  {
    hide Next, ValidSystem, After;
    TwoSteps(sys, w, a, b);
    AfterOne(sys, w, [a, b], c);
    assert [a, b] + [c] == [a, b, c];
  }

  lemma {:induction false} AfterStart(sys: System, w: World, step: Step, steps: seq<Step>)
    requires Shaped(sys, w)
    ensures After(sys, w, [step] + steps) == After(sys, Next(sys, w, step), steps)
  {
    hide Next, ValidSystem;
    if steps == [] {
      AfterOne(sys, w, [], step);
      assert [] + [step] == [step] + steps;
    } else {
      var n := |steps| - 1;
      AfterStart(sys, w, step, steps[..n]);
      assert ([step] + steps)[..n+1] == [step] + steps[..n];
    }
  }

  // ---- Key agreement --------------------------------------------------------------------

  predicate AgreementAt(sys: System, events: seq<Event>, k: int) {
    0 <= k < |events| && events[k].Agreed? && Honest(sys, events[k].device, events[k].server)
  }

  /** The device counts its epochs and was never restarted, or at least it never draws an
      N_i twice for one epoch and server. */
  predicate FreshBuilds(sys: System, w: World, d: Peer, s: Peer) {
    CountsOn(sys, w.restarted, d) || BuildsDiffer(w.events, d, s)
  }

  lemma AgreementOrigin(sys: System, steps: seq<Step>, k: int)
    requires ValidSystem(sys) && AgreementAt(sys, Run(sys, steps).events, k)
    ensures var w := Run(sys, steps);
            var events := w.events;
            var e, j := events[k], Origin(events, k);
            && 0 <= j < k && events[j] == Accepted(e.server, e.device, e.key) && KeyOfPair(sys, e)
            && (FreshBuilds(sys, w, e.device, e.server) ==>
                  forall i :: i != k && AgreementAt(sys, events, i) ==> Origin(events, i) != j)
  {
    hide ValidSystem, Run, BuildsDiffer;
    RunKeepsInv(sys, steps);
    var w := Run(sys, steps);
    var events := w.events;
    HasOrigin(sys, events, k);
    forall i | i != k && AgreementAt(sys, events, i) && FreshBuilds(sys, w, events[k].device, events[k].server)
      ensures Origin(events, i) != Origin(events, k)
    {
      HasOrigin(sys, events, i);
      if Origin(events, i) == Origin(events, k) {
        var a, b := if i < k then i else k, if i < k then k else i;
        assert AgreedApart(sys, w.restarted, events[a], events[b]);
        if BuildsDiffer(events, events[k].device, events[k].server) { SessionsDiffer(sys, steps, a, b); }
      }
    }
  }

  /** Whenever an honest device completes with key K at an honest server, that server
      earlier accepted the same (device, epoch, N_i), drew the same N_j and derived the
      same K; and no two completions share an acceptance, if the device counts its epochs
      without a restart or its builds for that server never repeat epoch and N_i together. */
  lemma InjectiveKeyAgreement(sys: System, steps: seq<Step>)
    requires ValidSystem(sys)
    ensures var w := Run(sys, steps);
            var events := w.events;
            forall k :: AgreementAt(sys, events, k) ==>
              var e, j := events[k], Origin(events, k);
              && 0 <= j < k && events[j] == Accepted(e.server, e.device, e.key) && KeyOfPair(sys, e)
              && (FreshBuilds(sys, w, e.device, e.server) ==>
                    forall i :: i != k && AgreementAt(sys, events, i) ==> Origin(events, i) != j)
  {
    hide ValidSystem, Run, FreshBuilds, Origin;
    var w := Run(sys, steps);
    var events := w.events;
    forall k | AgreementAt(sys, events, k)
      ensures var e, j := events[k], Origin(events, k);
              && 0 <= j < k && events[j] == Accepted(e.server, e.device, e.key) && KeyOfPair(sys, e)
              && (FreshBuilds(sys, w, e.device, e.server) ==>
                    forall i :: i != k && AgreementAt(sys, events, i) ==> Origin(events, i) != j)
    {
      AgreementOrigin(sys, steps, k);
    }
  }

  // ---- Later events --------------------------------------------------------------------

  lemma EventsGrow(sys: System, w: World, step: Step)
    requires Shaped(sys, w)
    ensures var next := Next(sys, w, step).events;
            next == w.events || (|next| == |w.events| + 1 && next[..|w.events|] == w.events)
  {
    hide ValidSystem, HandleAt, Build, Complete, CanSend;
  }

  /** Some event after the world w accepts p at s. */
  ghost predicate AcceptsLater(sys: System, w: World, steps: seq<Step>, s: Peer, p: Peer)
    requires Shaped(sys, w)
  {
    var events := After(sys, w, steps).events;
    exists k :: |w.events| <= k < |events| && IsAcceptance(events[k], s, p)
  }

  predicate IsAcceptance(e: Event, s: Peer, p: Peer) {
    e.Accepted? && e.server == s && e.device == p
  }

  ghost predicate AcceptsNow(sys: System, w: World, step: Step, s: Peer, p: Peer)
    requires Shaped(sys, w)
  {
    var events := Next(sys, w, step).events;
    |events| > |w.events| && IsAcceptance(events[|w.events|], s, p)
  }

  /** An acceptance later is an acceptance before the last step or at it. */
  lemma LaterOrNow(sys: System, w: World, steps: seq<Step>, s: Peer, p: Peer)
    requires Shaped(sys, w) && steps != []
    requires !AcceptsLater(sys, w, steps[..|steps|-1], s, p)
    requires !AcceptsNow(sys, After(sys, w, steps[..|steps|-1]), steps[|steps|-1], s, p)
    requires |After(sys, w, steps[..|steps|-1]).events| >= |w.events|
    ensures !AcceptsLater(sys, w, steps, s, p) && |After(sys, w, steps).events| >= |w.events|
  {
    hide ValidSystem, Next;
    var before := After(sys, w, steps[..|steps|-1]);
    EventsGrow(sys, before, steps[|steps|-1]);
    var events := After(sys, w, steps).events;
    assert events == Next(sys, before, steps[|steps|-1]).events;
    forall k | |w.events| <= k < |events| ensures !IsAcceptance(events[k], s, p) {
      if k < |before.events| {
        assert events[k] == before.events[k];
      }
    }
  }

  // ---- Blocking --------------------------------------------------------------------------

  ghost predicate BlockedAt(w: World, s: Peer, p: Peer) {
    s in w.srv && p in w.srv[s].log.blocked
  }

  lemma BlockedM1(sys: System, w: World, s': Peer, m: Delivery, s: Peer, p: Peer)
    requires Shaped(sys, w) && s' in sys.servers && BlockedAt(w, s, p)
    ensures var next := AfterM1(sys, w, s', m);
            && BlockedAt(next, s, p)
            && (|next.events| > |w.events| ==> !IsAcceptance(next.events[|w.events|], s, p))
  {
    hide ValidSystem, ValidEnrolment, HandleDelivery, ReadingsAfter;
    ServerIsValid(sys, s');
    HandleEffect(sys.servers[s'], w.srv[s'], m);
    var out := HandleAt(sys, w, s', m).1;
    assert out.AuthResult? && s' == s ==> out.peer != p;
  }

  lemma BlockedStep(sys: System, w: World, step: Step, s: Peer, p: Peer)
    requires Shaped(sys, w) && BlockedAt(w, s, p)
    ensures BlockedAt(Next(sys, w, step), s, p) && !AcceptsNow(sys, w, step, s, p)
  {
    hide ValidSystem, AfterM1, Build, Complete, CanSend;
    match step
    case DeliverM1(s', m) =>
      if s' in sys.servers { BlockedM1(sys, w, s', m, s, p); }
    case _ =>
  }

  /** Once a server has blocked a peer, it stays blocked, and no continuation of the
      run ever gives that peer an AuthResult there. */
  lemma {:induction false} BlockedNeverAccepted(sys: System, w: World, steps: seq<Step>, s: Peer, p: Peer)
    requires Shaped(sys, w) && BlockedAt(w, s, p)
    ensures BlockedAt(After(sys, w, steps), s, p)
    ensures !AcceptsLater(sys, w, steps, s, p) && |After(sys, w, steps).events| >= |w.events|
  {
    hide ValidSystem, Next, BlockedAt, AcceptsNow;
    if steps != [] {
      BlockedNeverAccepted(sys, w, steps[..|steps|-1], s, p);
      BlockedStep(sys, After(sys, w, steps[..|steps|-1]), steps[|steps|-1], s, p);
      LaterOrNow(sys, w, steps, s, p);
    }
  }
}
