/** How often a device completes: each completed session uses up a build of its own. */
module Sessions {
  import opened Terms
  import opened SessionLogs
  import opened Entities
  import opened Network

  /** What a session of device d with server s is known by. */
  datatype Tag = Tag(device: Peer, server: Peer, epoch: nat, ni: Nonce)

  predicate Builds(e: Event, tag: Tag) {
    e == Started(tag.device, tag.server, tag.epoch, tag.ni)
  }

  predicate Completes(e: Event, tag: Tag) {
    e.Agreed? && e.device == tag.device && e.server == tag.server && e.key.epoch == tag.epoch && e.key.ni == tag.ni
  }

  function BuildCount(events: seq<Event>, tag: Tag): nat {
    if events == [] then 0
    else BuildCount(events[..|events|-1], tag) + if Builds(events[|events|-1], tag) then 1 else 0
  }

  function CompletionCount(events: seq<Event>, tag: Tag): nat {
    if events == [] then 0
    else CompletionCount(events[..|events|-1], tag) + if Completes(events[|events|-1], tag) then 1 else 0
  }

  function PendingCount(dev: map<Peer, DeviceState>, tag: Tag): nat {
    if tag.device in dev && tag.server in dev[tag.device].pending
       && dev[tag.device].pending[tag.server].epoch == tag.epoch && dev[tag.device].pending[tag.server].ni == tag.ni
    then 1 else 0
  }

  lemma OneMoreEvent(events: seq<Event>, e: Event, tag: Tag)
    ensures BuildCount(events + [e], tag) == BuildCount(events, tag) + if Builds(e, tag) then 1 else 0
    ensures CompletionCount(events + [e], tag) == CompletionCount(events, tag) + if Completes(e, tag) then 1 else 0
  {
    assert (events + [e])[..|events|] == events;
  }

  /** Sessions completed and sessions pending come to no more than the builds. */
  predicate Accounted(w: World, tag: Tag) {
    CompletionCount(w.events, tag) + PendingCount(w.dev, tag) <= BuildCount(w.events, tag)
  }

  lemma BuildAccounted(sys: System, w: World, d: Peer, s: Peer, ni: Nonce, iv: nat, reading: nat, inRange: bool,
                       tag: Tag)
    requires Shaped(sys, w) && d in sys.devices && Accounted(w, tag)
    ensures Accounted(AfterBuild(sys, w, d, s, ni, iv, reading, inRange), tag)
  {
    hide ValidSystem, BuildCount, CompletionCount;
    var out := Build(sys.devices[d], w.dev[d], s, ni, iv, reading, inRange).1;
    if out.Built? { OneMoreEvent(w.events, Started(d, s, out.m1.pid.epoch, ni), tag); }
  }

  lemma M2Accounted(sys: System, w: World, d: Peer, m2: Message2, late: bool, tag: Tag)
    requires Shaped(sys, w) && d in sys.devices && Accounted(w, tag)
    ensures Accounted(AfterM2(sys, w, d, m2, late), tag)
  {
    hide ValidSystem, BuildCount, CompletionCount, Complete;
    CompletesExactly(sys.devices[d], w.dev[d], m2, late);
    var out := Complete(sys.devices[d], w.dev[d], m2, late).1;
    if out.Completed? { OneMoreEvent(w.events, Agreed(d, m2.serverId, out.key), tag); }
  }

  lemma M1Accounted(sys: System, w: World, s: Peer, m: Delivery, tag: Tag)
    requires Shaped(sys, w) && s in sys.servers && Accounted(w, tag)
    ensures Accounted(AfterM1(sys, w, s, m), tag)
  {
    hide ValidSystem, BuildCount, CompletionCount, HandleAt;
    var out := HandleAt(sys, w, s, m).1;
    if out.AuthResult? { OneMoreEvent(w.events, Accepted(s, out.peer, out.key), tag); }
  }

  lemma StepAccounted(sys: System, w: World, step: Step, tag: Tag)
    requires Shaped(sys, w) && Accounted(w, tag)
    ensures Accounted(Next(sys, w, step), tag)
  {
    hide ValidSystem, AfterBuild, AfterM1, AfterM2, BuildCount, CompletionCount;
    match step
    case BuildStep(d, s, ni, iv, reading, inRange) =>
      if d in sys.devices { BuildAccounted(sys, w, d, s, ni, iv, reading, inRange, tag); }
    case DeliverM1(s, m) =>
      if s in sys.servers && CanSend(sys, w.wire, m.m1.body) { M1Accounted(sys, w, s, m, tag); }
    case DeliverM2(d, m2, late) =>
      if d in sys.devices && CanSend(sys, w.wire, m2.body) { M2Accounted(sys, w, d, m2, late, tag); }
    case _ =>
  }

  /** In every run, a device completes sessions of one server, epoch and N_i at most as
      often as it built them. */
  lemma {:induction false} CompletionsWithinBuilds(sys: System, steps: seq<Step>, tag: Tag)
    requires ValidSystem(sys)
    ensures var w := Run(sys, steps);
            CompletionCount(w.events, tag) + PendingCount(w.dev, tag) <= BuildCount(w.events, tag)
  {
    hide ValidSystem, Next;
    if steps != [] {
      CompletionsWithinBuilds(sys, steps[..|steps|-1], tag);
      StepAccounted(sys, Run(sys, steps[..|steps|-1]), steps[|steps|-1], tag);
    }
  }

  // ---- From counts to positions ------------------------------------------------------

  lemma {:induction false} CountsOnce(events: seq<Event>, tag: Tag, i: int)
    requires 0 <= i < |events| && Completes(events[i], tag)
    ensures CompletionCount(events, tag) >= 1
  {
    if i < |events| - 1 { CountsOnce(events[..|events|-1], tag, i); }
  }

  lemma {:induction false} CountsTwice(events: seq<Event>, tag: Tag, i: int, k: int)
    requires 0 <= i < k < |events| && Completes(events[i], tag) && Completes(events[k], tag)
    ensures CompletionCount(events, tag) >= 2
  {
    if k < |events| - 1 {
      CountsTwice(events[..|events|-1], tag, i, k);
    } else {
      CountsOnce(events[..k], tag, i);
    }
  }

  lemma {:induction false} FindBuild(events: seq<Event>, tag: Tag) returns (i: nat)
    requires BuildCount(events, tag) >= 1
    ensures i < |events| && Builds(events[i], tag)
  {
    if Builds(events[|events|-1], tag) { i := |events| - 1; } else { i := FindBuild(events[..|events|-1], tag); }
  }

  /** No two builds of the device for this server agree in epoch and N_i. */
  predicate BuildsDiffer(events: seq<Event>, d: Peer, s: Peer) {
    forall i, k :: 0 <= i < k < |events| && events[i].Started? && events[k].Started?
                   && events[i].device == events[k].device == d && events[i].server == events[k].server == s ==>
      events[i].epoch != events[k].epoch || events[i].ni != events[k].ni
  }

  lemma {:induction false} DistinctBuildsCountOnce(events: seq<Event>, tag: Tag)
    requires BuildsDiffer(events, tag.device, tag.server)
    ensures BuildCount(events, tag) <= 1
  {
    if events != [] {
      var n := |events| - 1;
      DistinctBuildsCountOnce(events[..n], tag);
      if Builds(events[n], tag) && BuildCount(events[..n], tag) >= 1 {
        var _ := FindBuild(events[..n], tag);
      }
    }
  }

  /** Two completions of one device with one server. */
  predicate CompletionPair(events: seq<Event>, i: int, k: int) {
    && 0 <= i < k < |events| && events[i].Agreed? && events[k].Agreed?
    && events[i].device == events[k].device && events[i].server == events[k].server
  }

  /** When its builds for a server differ, a device never completes twice there with one
      epoch and N_i. */
  lemma SessionsDiffer(sys: System, steps: seq<Step>, i: int, k: int)
    requires ValidSystem(sys)
    ensures var events := Run(sys, steps).events;
            CompletionPair(events, i, k) && BuildsDiffer(events, events[k].device, events[k].server) ==>
              events[i].key.epoch != events[k].key.epoch || events[i].key.ni != events[k].key.ni
  {
    hide ValidSystem, BuildsDiffer, Run;
    var events := Run(sys, steps).events;
    if CompletionPair(events, i, k) && BuildsDiffer(events, events[k].device, events[k].server) {
      var tag := Tag(events[k].device, events[k].server, events[k].key.epoch, events[k].key.ni);
      CompletionsWithinBuilds(sys, steps, tag);
      DistinctBuildsCountOnce(events, tag);
      if Completes(events[i], tag) { CountsTwice(events, tag, i, k); }
    }
  }
}
