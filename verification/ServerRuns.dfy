/** Whole runs of one server: the precomputed table (O2) refines the scan (O1). */
module ServerRuns {
  import opened Terms
  import opened SessionLogs
  import opened CounterResolvers
  import opened Rainbow
  import opened Entities

  ghost function StateAfter(c: ServerConfig, st: ServerState, run: seq<Delivery>): ServerState
    requires ValidEnrolment(c.en)
  {
    if run == [] then st else HandleDelivery(c, StateAfter(c, st, run[..|run|-1]), run[|run|-1]).0
  }

  /** Outcome of the k-th delivery of a run. */
  ghost function OutcomeAt(c: ServerConfig, st: ServerState, run: seq<Delivery>, k: nat): ServerOutcome
    requires ValidEnrolment(c.en) && k < |run|
  {
    HandleDelivery(c, StateAfter(c, st, run[..k]), run[k]).1
  }

  function WithTable(c: ServerConfig): ServerConfig {
    c.(strategy := Table(c.log.forward))
  }

  /** What the table makes of the scan's outcomes. */
  function Coarser(out: ServerOutcome): ServerOutcome {
    if out == Rejected(ReplayDetected) then Rejected(UnknownPeer) else out
  }

  lemma SameStep(c: ServerConfig, st: ServerState, d: Delivery)
    requires ValidEnrolment(c.en) && c.strategy.Scan?
    ensures HandleDelivery(WithTable(c), st, d).0 == HandleDelivery(c, st, d).0
    ensures HandleDelivery(WithTable(c), st, d).1 == Coarser(HandleDelivery(c, st, d).1)
  {
    TableRefinesScan(c.en, c.log, st.log.last, d.m1.pid);
    var r := Resolve(c, st.log.last, d.resolveAt, d.m1.pid);
    assert Resolve(WithTable(c), st.log.last, d.resolveAt, d.m1.pid) == if r.Replayed? then Unknown else r;
    if r.Found? {
      ResolveSound(c, st.log.last, d.resolveAt, d.m1.pid);
    }
    hide ValidEnrolment, Resolve;
  }

  /** Fed the same messages, both servers pass through the same states: the same
      epochs accepted, the same failures counted, the same peers blocked. */
  lemma {:induction false} SameStates(c: ServerConfig, st: ServerState, run: seq<Delivery>)
    requires ValidEnrolment(c.en) && c.strategy.Scan?
    ensures StateAfter(WithTable(c), st, run) == StateAfter(c, st, run)
  {
    if run != [] {
      SameStates(c, st, run[..|run|-1]);
      SameStep(c, StateAfter(c, st, run[..|run|-1]), run[|run|-1]);
    }
  }

  /** ... and give the same answers, except that the table no longer recognises a
      replayed pseudonym and calls it unknown. */
  lemma TableRunRefinesScanRun(c: ServerConfig, st: ServerState, run: seq<Delivery>, k: nat)
    requires ValidEnrolment(c.en) && c.strategy.Scan? && k < |run|
    ensures OutcomeAt(WithTable(c), st, run, k) == Coarser(OutcomeAt(c, st, run, k))
  {
    SameStates(c, st, run[..k]);
    SameStep(c, StateAfter(c, st, run[..k]), run[k]);
  }

  // ---- Replays ------------------------------------------------------------------------------

  lemma StepKeepsLast(c: ServerConfig, st: ServerState, d: Delivery, p: Peer)
    requires ValidEnrolment(c.en)
    ensures var (next, out) := HandleDelivery(c, st, d);
            && Last(st.log.last, p) <= Last(next.log.last, p)
            && (out.AuthResult? && out.peer == p ==> out.key.epoch <= Last(next.log.last, p))
  {
    hide HandleDelivery, ValidEnrolment;
    HandleEffect(c, st, d);
    var (next, out) := HandleDelivery(c, st, d);
    assert next.log.last == if out.Rejected? then st.log.last else AdvanceLast(st.log.last, out.peer, out.key.epoch);
  }

  /** The last accepted epoch never moves back in a run. */
  lemma {:induction false} LastGrows(c: ServerConfig, st: ServerState, run: seq<Delivery>, i: nat, p: Peer)
    requires ValidEnrolment(c.en) && i <= |run|
    ensures Last(StateAfter(c, st, run[..i]).log.last, p) <= Last(StateAfter(c, st, run).log.last, p)
  {
    hide ValidEnrolment, HandleDelivery;
    if i < |run| {
      var n := |run| - 1;
      LastGrows(c, st, run[..n], i, p);
      assert run[..n][..i] == run[..i];
      StepKeepsLast(c, StateAfter(c, st, run[..n]), run[n], p);
    } else {
      assert run[..i] == run;
    }
  }

  /** After an acceptance the last epoch is at least the accepted one. */
  lemma AcceptedIsBelow(c: ServerConfig, st: ServerState, run: seq<Delivery>, j: nat, k: nat)
    requires ValidEnrolment(c.en) && j < k <= |run| && OutcomeAt(c, st, run, j).AuthResult?
    ensures var out := OutcomeAt(c, st, run, j);
            out.key.epoch <= Last(StateAfter(c, st, run[..k]).log.last, out.peer)
  {
    hide ValidEnrolment, HandleDelivery;
    var out := OutcomeAt(c, st, run, j);
    assert run[..j+1][..j] == run[..j];
    StepKeepsLast(c, StateAfter(c, st, run[..j]), run[j], out.peer);
    assert run[..k][..j+1] == run[..j+1];
    LastGrows(c, st, run[..k], j + 1, out.peer);
  }

  /** In every run of a scan or rainbow server, a pseudonym accepted before is refused as a
      replay: by a scan as long as the last epoch has moved at most L past it, and as unknown
      from then on; by rainbow tables for good. */
  lemma ReplaysDetected(c: ServerConfig, st: ServerState, run: seq<Delivery>, j: nat, k: nat)
    requires ValidEnrolment(c.en) && j < k < |run| && OutcomeAt(c, st, run, j).AuthResult?
    requires run[k].m1.pid == run[j].m1.pid
    ensures var out := OutcomeAt(c, st, run, j);
            var last := Last(StateAfter(c, st, run[..k]).log.last, out.peer);
            && out.key.epoch <= last
            && (c.strategy.Scan? ==>
                  OutcomeAt(c, st, run, k)
                  == Rejected(if last <= out.key.epoch + c.log.lookback then ReplayDetected else UnknownPeer))
            && (c.strategy.TimeMemory? ==> OutcomeAt(c, st, run, k) == Rejected(ReplayDetected))
  {
    AcceptedIsBelow(c, st, run, j, k);
    var before := StateAfter(c, st, run[..j]);
    var later := StateAfter(c, st, run[..k]);
    var out := OutcomeAt(c, st, run, j);
    HandleEffect(c, before, run[j]);
    var pid := run[k].m1.pid;
    hide ValidEnrolment, StateAfter, HandleResolved, ScanResolution, RainbowResolution;
    if c.strategy.Scan? {
      ScanExactly(c.en, c.log, later.log.last, pid, out.peer, out.key.epoch);
    }
    if c.strategy.TimeMemory? {
      var (lifetime, covered) := (c.strategy.lifetime, c.strategy.covered);
      RainbowExactly(c.en, lifetime, covered, before.log.last, pid, out.peer, out.key.epoch);
      RainbowExactly(c.en, lifetime, covered, later.log.last, pid, out.peer, out.key.epoch);
    }
  }
}
