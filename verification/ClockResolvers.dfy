/** protocol/resolution.py, clock epochs: ClockScan (O3), ClockTable (O4) and the
    nonce cache they share. A clock reading is the epoch floor(clock / seconds). */
module ClockResolvers {
  import opened Terms
  import opened SessionLogs
  import opened CounterResolvers

  /** The current epoch first, then its neighbours, nearest first. */
  function Window(cur: nat, drift: nat): seq<nat> {
    if drift == 0 then [cur]
    else Window(cur, drift - 1) + (if cur >= drift then [cur - drift] else []) + [cur + drift]
  }

  lemma {:induction false} WindowIs(cur: nat, drift: nat, e: nat)
    ensures e in Window(cur, drift) <==> cur - drift <= e <= cur + drift
  {
    if drift > 0 { WindowIs(cur, drift - 1, e); }
  }

  /** No epoch is probed twice. */
  lemma {:induction false} WindowDistinct(cur: nat, drift: nat, i: nat, j: nat)
    requires i < j < |Window(cur, drift)|
    ensures Window(cur, drift)[i] != Window(cur, drift)[j]
  {
    if drift > 0 {
      var inner := Window(cur, drift - 1);
      if j < |inner| {
        WindowDistinct(cur, drift - 1, i, j);
      } else if i < |inner| {
        WindowIs(cur, drift - 1, inner[i]);
      }
    }
  }

  /** The current epoch comes first, and only epochs before zero are missing. */
  lemma {:induction false} WindowLength(cur: nat, drift: nat)
    ensures |Window(cur, drift)| == 1 + drift + Min(cur, drift)
    ensures Window(cur, drift)[0] == cur
  {
    if drift > 0 { WindowLength(cur, drift - 1); }
  }

  function Min(a: nat, b: nat): nat {
    if a <= b then a else b
  }

  /** The order of the window: cur, cur - 1, cur + 1, cur - 2, .., as far as epochs reach
      back, and then cur + k alone. */
  lemma {:induction false} WindowOrder(cur: nat, drift: nat, k: nat)
    requires k <= drift
    ensures k + Min(cur, k) < |Window(cur, drift)| && Window(cur, drift)[k + Min(cur, k)] == cur + k
    ensures 1 <= k <= cur ==> Window(cur, drift)[2 * k - 1] == cur - k
  {
    WindowLength(cur, drift);
    if k < drift {
      WindowOrder(cur, drift - 1, k);
    } else if drift > 0 {
      WindowLength(cur, drift - 1);
    }
  }

  ghost function ClockResolution(en: Enrolment, cur: nat, drift: nat, pid: Pid): Resolution
    requires ValidEnrolment(en)
  {
    if pid.H2? && Owner(en, pid.lam).Some? && cur - drift <= pid.epoch <= cur + drift
    then Found(Owner(en, pid.lam).value, pid.epoch) else Unknown
  }

  ghost function PositionIn(window: seq<nat>, e: nat): nat
    requires e in window
  {
    var i: nat :| i < |window| && window[i] == e; i
  }

  /** Probes of one scan: every peer's window, up to the first match. */
  ghost function ClockScanCost(en: Enrolment, cur: nat, drift: nat, pid: Pid): nat
    requires ValidEnrolment(en)
  {
    var window := Window(cur, drift);
    if ClockResolution(en, cur, drift, pid).Unknown? then |en.peers| * |window|
    else
      WindowIs(cur, drift, pid.epoch);
      OwnerIndex(en, pid.lam).value * |window| + PositionIn(window, pid.epoch) + 1
  }

  class ClockScan {
    const en: Enrolment
    const drift: nat
    var probes: nat

    constructor (en: Enrolment, drift: nat)
      ensures this.en == en && this.drift == drift && probes == 0
    {
      this.en, this.drift, probes := en, drift, 0;
    }

    method Resolve(pid: Pid, cur: nat) returns (r: Resolution)
      requires ValidEnrolment(en)
      modifies `probes
      ensures r == ClockResolution(en, cur, drift, pid)
      ensures probes == old(probes) + ClockScanCost(en, cur, drift, pid)
    {
      var window := Window(cur, drift);
      if pid.H2? { WindowIs(cur, drift, pid.epoch); }
      for i := 0 to |en.peers|
        invariant probes == old(probes) + i * |window|
        invariant pid.H2? && pid.epoch in window ==> forall j :: 0 <= j < i ==> !OwnsAt(en, pid.lam, j)
      {
        var p := en.peers[i];
        NextRow(i, |window|);
        for k := 0 to |window|
          invariant probes == old(probes) + i * |window| + k
          invariant forall m :: 0 <= m < k ==> H2(en.secret[p], window[m]) != pid
        {
          probes := probes + 1;
          if H2(en.secret[p], window[k]) == pid {
            assert OwnsAt(en, pid.lam, i);
            OnlyPosition(cur, drift, k);
            return Found(p, window[k]);
          }
        }
      }
      r := Unknown;
    }
  }

  lemma NextRow(i: nat, n: nat)
    ensures (i + 1) * n == i * n + n
  {}

  lemma OnlyPosition(cur: nat, drift: nat, k: nat)
    requires k < |Window(cur, drift)|
    ensures PositionIn(Window(cur, drift), Window(cur, drift)[k]) == k
  {
    var m := PositionIn(Window(cur, drift), Window(cur, drift)[k]);
    if m < k { WindowDistinct(cur, drift, m, k); }
    if k < m { WindowDistinct(cur, drift, k, m); }
  }

  /** Once the clock is past the drift, a forgery costs N (2 drift + 1) probes, and the
      i-th peer's pseudonym of the current epoch i (2 drift + 1) + 1. */
  lemma SteadyClockScanCost(en: Enrolment, cur: nat, drift: nat, pid: Pid, i: nat)
    requires ValidEnrolment(en) && drift <= cur
    ensures ClockResolution(en, cur, drift, pid).Unknown? ==>
              ClockScanCost(en, cur, drift, pid) == |en.peers| * (2 * drift + 1)
    ensures pid.H2? && pid.epoch == cur && OwnsAt(en, pid.lam, i) ==>
              ClockScanCost(en, cur, drift, pid) == i * (2 * drift + 1) + 1
  {
    WindowLength(cur, drift);
    OnlyPosition(cur, drift, 0);
    hide ValidEnrolment, PositionIn, Window;
  }

  /** ... and in general: an epoch k ahead is the (k + min(cur, k) + 1)-st probed in the
      peer's window, an epoch k back the 2k-th, and a forgery costs all windows. */
  lemma ClockScanCostExactly(en: Enrolment, cur: nat, drift: nat, pid: Pid, i: nat, k: nat)
    requires ValidEnrolment(en) && k <= drift
    ensures var size := 1 + drift + Min(cur, drift);
            && (ClockResolution(en, cur, drift, pid).Unknown? ==>
                ClockScanCost(en, cur, drift, pid) == |en.peers| * size)
            && (pid.H2? && OwnsAt(en, pid.lam, i) ==>
                  && (pid.epoch == cur + k ==> ClockScanCost(en, cur, drift, pid) == i * size + k + Min(cur, k) + 1)
                  && (pid.epoch == cur - k && 1 <= k ==> ClockScanCost(en, cur, drift, pid) == i * size + 2 * k))
  {
    WindowLength(cur, drift);
    WindowOrder(cur, drift, k);
    OnlyPosition(cur, drift, k + Min(cur, k));
    if 1 <= k <= cur { OnlyPosition(cur, drift, 2 * k - 1); }
    hide ValidEnrolment, PositionIn, Window;
  }

  // ---- O4: one table for the whole window --------------------------------------

  /** A pseudonym of a tabled epoch, or of epoch `next` and one of the first n peers. */
  ghost predicate Tabled(en: Enrolment, tabled: set<nat>, next: nat, n: nat, k: Pid)
    requires ValidEnrolment(en)
  {
    k.H2? && OwnerIndex(en, k.lam).Some? &&
    (k.epoch in tabled || (k.epoch == next && OwnerIndex(en, k.lam).value < n))
  }

  ghost predicate EpochTable(table: map<Pid, (Peer, nat)>, en: Enrolment, tabled: set<nat>, next: nat, n: nat)
    requires ValidEnrolment(en)
  {
    && (forall k :: k in table <==> Tabled(en, tabled, next, n, k))
    && (forall k :: k in table ==> table[k] == (Owner(en, k.lam).value, k.epoch))
  }

  lemma NewKey(en: Enrolment, tabled: set<nat>, next: nat, n: nat, k: Pid)
    requires ValidEnrolment(en) && n < |en.peers| && en.peers[n] in en.secret
    ensures var key := H2(en.secret[en.peers[n]], next);
            && (Tabled(en, tabled, next, n + 1, k) <==> Tabled(en, tabled, next, n, k) || k == key)
            && (next !in tabled && k == key ==> !Tabled(en, tabled, next, n, k))
  {
    hide ValidEnrolment;
    assert OwnsAt(en, en.secret[en.peers[n]], n);
    if k.H2? && OwnerIndex(en, k.lam).Some? && OwnerIndex(en, k.lam).value == n {
      assert OwnsAt(en, k.lam, n);
    }
  }

  lemma AddEntry(table: map<Pid, (Peer, nat)>, en: Enrolment, tabled: set<nat>, next: nat, n: nat)
    requires ValidEnrolment(en) && n < |en.peers| && en.peers[n] in en.secret
    requires EpochTable(table, en, tabled, next, n)
    ensures EpochTable(table[H2(en.secret[en.peers[n]], next) := (en.peers[n], next)], en, tabled, next, n + 1)
  {
    hide ValidEnrolment;
    var key := H2(en.secret[en.peers[n]], next);
    assert OwnsAt(en, key.lam, n);
    forall k ensures Tabled(en, tabled, next, n + 1, k) <==> Tabled(en, tabled, next, n, k) || k == key {
      NewKey(en, tabled, next, n, k);
    }
  }

  lemma EpochDone(table: map<Pid, (Peer, nat)>, en: Enrolment, tabled: set<nat>, e: nat, next: nat)
    requires ValidEnrolment(en)
    requires EpochTable(table, en, tabled, e, |en.peers|)
    ensures EpochTable(table, en, tabled + {e}, next, 0)
  {
    hide ValidEnrolment;
    forall k ensures Tabled(en, tabled + {e}, next, 0, k) <==> Tabled(en, tabled, e, |en.peers|, k) {}
  }

  lemma NextEpoch(table: map<Pid, (Peer, nat)>, en: Enrolment, tabled: set<nat>, e: nat, next: nat)
    requires ValidEnrolment(en)
    requires EpochTable(table, en, tabled, e, 0)
    ensures EpochTable(table, en, tabled, next, 0)
  {
    hide ValidEnrolment;
    forall k ensures Tabled(en, tabled, next, 0, k) <==> Tabled(en, tabled, e, 0, k) {}
  }

  lemma DropEpochs(table: map<Pid, (Peer, nat)>, en: Enrolment, tabled: set<nat>, gone: set<nat>)
    requires ValidEnrolment(en)
    requires EpochTable(table, en, tabled, 0, 0)
    ensures EpochTable(table - (set k | k in table && table[k].1 in gone), en, tabled - gone, 0, 0)
  {
    hide ValidEnrolment;
    forall k ensures Tabled(en, tabled - gone, 0, 0, k) <==> Tabled(en, tabled, 0, 0, k) && k.epoch !in gone {}
  }

  ghost function WindowSet(cur: nat, drift: nat): set<nat> {
    set e | e in Window(cur, drift)
  }

  class ClockTable {
    const en: Enrolment
    const drift: nat
    var table: map<Pid, (Peer, nat)>
    var tabled: set<nat>
    var probes: nat
    var precomputeProbes: nat

    ghost predicate Valid()
      reads this
    {
      ValidEnrolment(en) && EpochTable(table, en, tabled, 0, 0)
    }

    constructor (en: Enrolment, drift: nat, cur: nat)
      requires ValidEnrolment(en)
      ensures this.en == en && this.drift == drift
      ensures Valid() && tabled == WindowSet(cur, drift)
      ensures probes == 0 && precomputeProbes == |en.peers| * |WindowSet(cur, drift)|
    {
      this.en, this.drift := en, drift;
      table, tabled, probes, precomputeProbes := map[], {}, 0, 0;
      new;
      assert WindowSet(cur, drift) - {} == WindowSet(cur, drift);
      Advance(cur);
    }

    /** Whatever the table held before, it now holds exactly the current window. */
    method Advance(cur: nat)
      requires Valid()
      modifies `table, `tabled, `precomputeProbes
      ensures Valid() && tabled == WindowSet(cur, drift)
      ensures precomputeProbes == old(precomputeProbes) + |en.peers| * |WindowSet(cur, drift) - old(tabled)|
    {
      hide EpochTable, ValidEnrolment, Window;
      var window := Window(cur, drift);
      var want := set e | e in window;
      AddEpochs(want - tabled);
      assert tabled + (want - tabled) == tabled + want;
      var gone := tabled - want;
      DropEpochs(table, en, tabled + want, gone);
      if gone != {} {
        table := table - (set k | k in table && table[k].1 in gone);
      } else {
        assert table - (set k | k in table && table[k].1 in gone) == table;
      }
      assert (tabled + want) - gone == want;
      tabled := want;
    }

    /** The epoch loop. The source sorts the new epochs; the table does not depend
        on their order. */
    method AddEpochs(news: set<nat>)
      requires ValidEnrolment(en) && EpochTable(table, en, tabled, 0, 0)
      modifies `table, `precomputeProbes
      ensures EpochTable(table, en, tabled + news, 0, 0)
      ensures precomputeProbes == old(precomputeProbes) + |en.peers| * |news|
    {
      hide EpochTable, ValidEnrolment;
      var todo := news;
      ghost var done, k: nat := tabled, 0;
      while todo != {}
        invariant todo <= news && done == tabled + (news - todo)
        invariant EpochTable(table, en, done, 0, 0)
        invariant k == |news| - |todo|
        invariant precomputeProbes == old(precomputeProbes) + |en.peers| * k
      {
        var e :| e in todo;
        NextEpoch(table, en, done, 0, e);
        AddEpoch(e, done);
        EpochDone(table, en, done, e, 0);
        OneMoreEpoch(|en.peers|, k);
        todo, done, k := todo - {e}, done + {e}, k + 1;
      }
      assert done == tabled + news;
    }

    /** One round of the epoch loop: the epoch's pseudonym of every peer. */
    method AddEpoch(e: nat, ghost done: set<nat>)
      requires ValidEnrolment(en) && EpochTable(table, en, done, e, 0)
      modifies `table, `precomputeProbes
      ensures EpochTable(table, en, done, e, |en.peers|)
      ensures precomputeProbes == old(precomputeProbes) + |en.peers|
    {
      hide EpochTable;
      for i := 0 to |en.peers|
        invariant EpochTable(table, en, done, e, i)
        invariant precomputeProbes == old(precomputeProbes) + i
      {
        var p := en.peers[i];
        assert p in en.peers;
        AddEntry(table, en, done, e, i);
        precomputeProbes := precomputeProbes + 1;
        table := table[H2(en.secret[p], e) := (p, e)];
      }
    }

    method Resolve(pid: Pid, cur: nat) returns (r: Resolution)
      requires Valid()
      modifies `table, `tabled, `precomputeProbes
      ensures Valid() && tabled == WindowSet(cur, drift)
      ensures r == ClockResolution(en, cur, drift, pid)
      ensures precomputeProbes == old(precomputeProbes) + |en.peers| * |WindowSet(cur, drift) - old(tabled)|
    {
      Advance(cur);
      assert pid in table <==> Tabled(en, tabled, 0, 0, pid);
      if pid.H2? { WindowIs(cur, drift, pid.epoch); }
      r := if pid in table then Found(table[pid].0, table[pid].1) else Unknown;
    }
  }

  // ---- Sizes and costs in closed form ----------------------------------------------

  ghost function Elements(s: seq<nat>): set<nat> {
    set e | e in s
  }

  lemma {:induction false} DistinctElements(s: seq<nat>)
    requires forall i, j :: 0 <= i < j < |s| ==> s[i] != s[j]
    ensures |Elements(s)| == |s|
  {
    if s == [] {
      assert Elements(s) == {};
    } else {
      var n := |s| - 1;
      DistinctElements(s[..n]);
      assert s == s[..n] + [s[n]];
      assert Elements(s) == Elements(s[..n]) + {s[n]};
    }
  }

  lemma WindowSetSize(cur: nat, drift: nat)
    ensures |WindowSet(cur, drift)| == 1 + drift + Min(cur, drift)
  {
    WindowLength(cur, drift);
    hide Window;
    forall i, j | 0 <= i < j < |Window(cur, drift)| ensures Window(cur, drift)[i] != Window(cur, drift)[j] {
      WindowDistinct(cur, drift, i, j);
    }
    DistinctElements(Window(cur, drift));
    assert WindowSet(cur, drift) == Elements(Window(cur, drift));
  }

  /** Probes of one advance to `cur`, for a table that holds the window of `was`: N for
      every epoch the clock has moved on, up to a whole window, and none while it stands. */
  lemma AdvanceCost(n: nat, was: nat, cur: nat, drift: nat)
    requires drift <= was <= cur
    ensures n * |WindowSet(cur, drift) - WindowSet(was, drift)| == n * Min(cur - was, 2 * drift + 1)
  {
    var k := Min(cur - was, 2 * drift + 1);
    hide Window;
    forall e: nat
      ensures e in WindowSet(cur, drift) - WindowSet(was, drift) <==> cur + drift - k < e <= cur + drift
    {
      WindowIs(cur, drift, e);
      WindowIs(was, drift, e);
    }
    TopEpochs(WindowSet(cur, drift) - WindowSet(was, drift), cur + drift, k);
  }

  lemma {:induction false} TopEpochs(s: set<nat>, top: nat, k: nat)
    requires forall e: nat :: e in s <==> top - k < e <= top
    requires k <= top + 1
    ensures |s| == k
  {
    if k == 0 {
      assert s == {};
    } else {
      TopEpochs(s - {top + 1 - k}, top, k - 1);
    }
  }

  ghost predicate KeysOf(en: Enrolment, tabled: set<nat>, next: nat, n: nat, keys: set<Pid>)
    requires ValidEnrolment(en)
  {
    forall k :: k in keys <==> Tabled(en, tabled, next, n, k)
  }

  lemma WithoutNewest(en: Enrolment, tabled: set<nat>, next: nat, n: nat, keys: set<Pid>) returns (key: Pid)
    requires ValidEnrolment(en) && next !in tabled && n < |en.peers| && KeysOf(en, tabled, next, n + 1, keys)
    ensures key in keys && KeysOf(en, tabled, next, n, keys - {key})
  {
    assert en.peers[n] in en.peers;
    key := H2(en.secret[en.peers[n]], next);
    hide ValidEnrolment, Tabled;
    forall k ensures k in keys - {key} <==> Tabled(en, tabled, next, n, k) {
      NewKey(en, tabled, next, n, k);
    }
    NewKey(en, tabled, next, n, key);
  }

  lemma AsNewest(en: Enrolment, tabled: set<nat>, next: nat, e: nat, keys: set<Pid>)
    requires ValidEnrolment(en) && e in tabled && KeysOf(en, tabled, next, 0, keys)
    ensures KeysOf(en, tabled - {e}, e, |en.peers|, keys)
  {
    hide ValidEnrolment;
  }

  /** Every tabled epoch has N entries, and `next` the first n of its own. */
  lemma {:induction false} KeysSize(en: Enrolment, tabled: set<nat>, next: nat, n: nat, keys: set<Pid>)
    requires ValidEnrolment(en) && next !in tabled && n <= |en.peers| && KeysOf(en, tabled, next, n, keys)
    ensures |keys| == |en.peers| * |tabled| + n
    decreases |tabled|, n
  {
    hide ValidEnrolment;
    if n > 0 {
      var key := WithoutNewest(en, tabled, next, n - 1, keys);
      KeysSize(en, tabled, next, n - 1, keys - {key});
    } else if tabled != {} {
      var e :| e in tabled;
      AsNewest(en, tabled, next, e, keys);
      KeysSize(en, tabled - {e}, e, |en.peers|, keys);
      OneMoreEpoch(|en.peers|, |tabled| - 1);
    } else {
      assert keys == {};
    }
  }

  lemma {:induction false} Unused(tabled: set<nat>) returns (e: nat)
    ensures forall x :: x in tabled ==> x < e
  {
    if tabled == {} {
      e := 0;
    } else {
      var x :| x in tabled;
      var rest := Unused(tabled - {x});
      e := if rest > x then rest else x + 1;
      assert tabled == (tabled - {x}) + {x};
    }
  }

  /** Once advanced to a reading past the drift, the table has N (2 drift + 1) entries. */
  lemma ClockTableSize(t: ClockTable, cur: nat)
    requires t.Valid()
    ensures |t.table| == |t.en.peers| * |t.tabled|
    ensures t.tabled == WindowSet(cur, t.drift) && t.drift <= cur ==> |t.table| == |t.en.peers| * (2 * t.drift + 1)
  {
    hide ValidEnrolment, WindowSet;
    var next := Unused(t.tabled);
    NextEpoch(t.table, t.en, t.tabled, 0, next);
    assert KeysOf(t.en, t.tabled, next, 0, t.table.Keys);
    KeysSize(t.en, t.tabled, next, 0, t.table.Keys);
    WindowSetSize(cur, t.drift);
    assert |t.table| == |t.table.Keys|;
  }

  lemma OneMoreEpoch(n: nat, k: nat)
    ensures n * (k + 1) == n * k + n
  {}

  // ---- Amortised cost of the table -----------------------------------------------

  predicate Nondecreasing(readings: seq<nat>) {
    forall i, j :: 0 <= i <= j < |readings| ==> readings[i] <= readings[j]
  }

  /** Epochs in the window of at least one reading. */
  ghost function Seen(readings: seq<nat>, drift: nat): set<nat> {
    if readings == [] then {}
    else Seen(readings[..|readings|-1], drift) + WindowSet(readings[|readings|-1], drift)
  }

  ghost function TabledAfter(readings: seq<nat>, drift: nat): set<nat> {
    if readings == [] then {} else WindowSet(readings[|readings|-1], drift)
  }

  function Times(n: nat, k: nat): nat {
    n * k
  }

  /** Precompute probes of a table of n peers advanced at every reading. */
  ghost function AdvanceCosts(n: nat, readings: seq<nat>, drift: nat): nat {
    if readings == [] then 0
    else
      var before := readings[..|readings|-1];
      AdvanceCosts(n, before, drift)
      + Times(n, |WindowSet(readings[|readings|-1], drift) - TabledAfter(before, drift)|)
  }

  lemma {:induction false} SeenIs(readings: seq<nat>, drift: nat, e: nat)
    ensures e in Seen(readings, drift) <==>
              exists i :: 0 <= i < |readings| && readings[i] - drift <= e <= readings[i] + drift
  {
    hide Window;
    if readings != [] {
      var n := |readings| - 1;
      SeenIs(readings[..n], drift, e);
      WindowIs(readings[n], drift, e);
    }
  }

  /** The windows of a clock that never goes back leave no gap to come back to. */
  lemma NewEpochsAreNew(readings: seq<nat>, drift: nat)
    requires readings != [] && Nondecreasing(readings)
    ensures WindowSet(readings[|readings|-1], drift) - TabledAfter(readings[..|readings|-1], drift)
         == WindowSet(readings[|readings|-1], drift) - Seen(readings[..|readings|-1], drift)
  {
    hide Window, Seen;
    var n := |readings| - 1;
    forall e | e in WindowSet(readings[n], drift)
      ensures e in TabledAfter(readings[..n], drift) <==> e in Seen(readings[..n], drift)
    {
      SeenIs(readings[..n], drift, e);
      WindowIs(readings[n], drift, e);
      if n > 0 { WindowIs(readings[n-1], drift, e); }
    }
  }

  /** With a clock that never goes back, each epoch of any window costs N probes, once. */
  lemma {:induction false} AmortisedAdvanceCost(n: nat, readings: seq<nat>, drift: nat)
    requires Nondecreasing(readings)
    ensures AdvanceCosts(n, readings, drift) == n * |Seen(readings, drift)|
  {
    if readings != [] {
      var last := |readings| - 1;
      AmortisedAdvanceCost(n, readings[..last], drift);
      NewEpochsAreNew(readings, drift);
      var before, now := Seen(readings[..last], drift), WindowSet(readings[last], drift);
      assert AdvanceCosts(n, readings, drift) == n * |before| + Times(n, |now - before|);
      assert Seen(readings, drift) == before + now;
      DisjointParts(n, before, now);
    }
  }

  lemma DisjointParts(n: nat, before: set<nat>, now: set<nat>)
    ensures n * |before + now| == n * |before| + Times(n, |now - before|)
  {
    assert before + now == before + (now - before);
    Distribute(n, |before|, |now - before|);
  }

  lemma Distribute(n: nat, a: nat, b: nat)
    ensures n * (a + b) == n * a + n * b
  {}

  // ---- The nonce cache -------------------------------------------------------------

  type Nonces = map<nat, set<seq<byte>>>

  function NonceTag(p: Peer, ni: Nonce): seq<byte> {
    p.id + [0] + ni.bytes
  }

  function Pruned(nonces: Nonces, cur: nat, drift: nat): Nonces {
    map e | e in nonces && e >= cur - drift :: nonces[e]
  }

  function TagsAt(nonces: Nonces, e: nat): set<seq<byte>> {
    if e in nonces then nonces[e] else {}
  }

  predicate Refused(nonces: Nonces, cur: nat, drift: nat, p: Peer, epoch: nat, ni: Nonce) {
    NonceTag(p, ni) in TagsAt(Pruned(nonces, cur, drift), epoch)
  }

  /** The cache after a request, accepted or refused. */
  function AfterNonce(nonces: Nonces, cur: nat, drift: nat, p: Peer, epoch: nat, ni: Nonce): Nonces {
    var kept := Pruned(nonces, cur, drift);
    kept[epoch := TagsAt(kept, epoch) + {NonceTag(p, ni)}]
  }

  class NonceCache {
    const drift: nat
    const log: SessionLog
    var nonces: Nonces

    constructor (drift: nat, log: SessionLog)
      ensures this.drift == drift && this.log == log && nonces == map[]
    {
      this.drift, this.log, nonces := drift, log, map[];
    }

    /** False: the nonce is a replay, and the session log is left alone. */
    method Accept(p: Peer, epoch: nat, ni: Nonce, cur: nat) returns (ok: bool)
      modifies `nonces, log`last
      ensures ok <==> !Refused(old(nonces), cur, drift, p, epoch, ni)
      ensures nonces == AfterNonce(old(nonces), cur, drift, p, epoch, ni)
      ensures log.State() == if ok then AfterAccept(old(log.State()), p, epoch) else old(log.State())
    {
      var lo := cur - drift;
      nonces := nonces - (set e | e in nonces && e < lo);
      assert nonces == Pruned(old(nonces), cur, drift);
      var seen := if epoch in nonces then nonces[epoch] else {};
      var tag := NonceTag(p, ni);
      if tag in seen {
        nonces := nonces[epoch := seen];
        assert seen + {tag} == seen;
        return false;
      }
      nonces := nonces[epoch := seen + {tag}];
      if epoch > Last(log.last, p) {
        log.last := log.last[p := epoch];
      }
      ok := true;
    }
  }

  // ---- Sequences of accept calls ----------------------------------------------------

  /** One accept call: the request, and the epoch the clock read for it. */
  datatype Request = Request(peer: Peer, epoch: nat, ni: Nonce, acceptAt: nat)

  function NoncesAfter(drift: nat, run: seq<Request>): Nonces {
    if run == [] then map[]
    else
      var r := run[|run|-1];
      AfterNonce(NoncesAfter(drift, run[..|run|-1]), r.acceptAt, drift, r.peer, r.epoch, r.ni)
  }

  predicate ClockAdvances(run: seq<Request>) {
    forall i, j :: 0 <= i <= j < |run| ==> run[i].acceptAt <= run[j].acceptAt
  }

  predicate SameTriple(a: Request, b: Request) {
    a.peer == b.peer && a.epoch == b.epoch && a.ni == b.ni
  }

  // ---- Which identities share tags -------------------------------------------------

  /** q's identity begins with p's and a NUL byte. */
  predicate Extends(q: Peer, p: Peer) {
    p.id + [0] <= q.id
  }

  /** Two identities have a tag in common, under nonces of these lengths, exactly when
      one extends the other by the difference of the lengths. */
  lemma TagsMeetExactly(p: Peer, q: Peer, m: nat, n: nat)
    requires p != q
    ensures (exists a: Nonce, b: Nonce :: |a.bytes| == m && |b.bytes| == n && NonceTag(p, a) == NonceTag(q, b))
       <==> |p.id| + m == |q.id| + n && (Extends(p, q) || Extends(q, p))
  {
    if a: Nonce, b: Nonce :| |a.bytes| == m && |b.bytes| == n && NonceTag(p, a) == NonceTag(q, b) {
      SharedTagExtends(p, a, q, b);
    }
    if |p.id| + m == |q.id| + n {
      if Extends(q, p) { var a, b := MeetingNonces(p, q, n); }
      if Extends(p, q) { var b, a := MeetingNonces(q, p, m); }
    }
  }

  lemma SharedTagExtends(p: Peer, a: Nonce, q: Peer, b: Nonce)
    requires NonceTag(p, a) == NonceTag(q, b)
    ensures |p.id| + |a.bytes| == |q.id| + |b.bytes|
    ensures (p == q && a == b) || Extends(p, q) || Extends(q, p)
  {
    var tag := NonceTag(p, a);
    assert |tag| == |p.id| + 1 + |a.bytes| == |q.id| + 1 + |b.bytes|;
    assert p.id == tag[..|p.id|] && q.id == tag[..|q.id|];
    assert p.id + [0] == tag[..|p.id|+1] && q.id + [0] == tag[..|q.id|+1];
    assert a.bytes == tag[|p.id|+1..] && b.bytes == tag[|q.id|+1..];
  }

  lemma MeetingNonces(p: Peer, q: Peer, n: nat) returns (a: Nonce, b: Nonce)
    requires Extends(q, p)
    ensures |b.bytes| == n && |p.id| + |a.bytes| == |q.id| + n && NonceTag(p, a) == NonceTag(q, b)
  {
    var rest := q.id[|p.id|+1..];
    b := Nonce(seq(n, _ => 0));
    a := Nonce(rest + [0] + b.bytes);
    assert q.id == p.id + [0] + rest;
    assert NonceTag(p, a) == p.id + [0] + rest + [0] + b.bytes == NonceTag(q, b);
  }

  /** Nonces of one length never share a tag, whatever the identities. */
  lemma OneLengthTagsDiffer(p: Peer, a: Nonce, q: Peer, b: Nonce)
    requires |a.bytes| == |b.bytes| && NonceTag(p, a) == NonceTag(q, b)
    ensures p == q && a == b
  {
    SharedTagExtends(p, a, q, b);
  }

  /** A length generate_nonce draws. */
  predicate DrawnLength(ni: Nonce) {
    |ni.bytes| == 16 || |ni.bytes| == 24 || |ni.bytes| == 32
  }

  predicate ExtendsByEights(q: Peer, p: Peer) {
    Extends(q, p) && (|q.id| == |p.id| + 8 || |q.id| == |p.id| + 16)
  }

  /** Under nonces of the lengths drawn, exactly when one extends the other by 8 or 16. */
  lemma DrawnTagsMeetExactly(p: Peer, q: Peer)
    requires p != q
    ensures (exists a, b :: DrawnLength(a) && DrawnLength(b) && NonceTag(p, a) == NonceTag(q, b))
       <==> ExtendsByEights(p, q) || ExtendsByEights(q, p)
  {
    if a, b :| DrawnLength(a) && DrawnLength(b) && NonceTag(p, a) == NonceTag(q, b) {
      SharedTagExtends(p, a, q, b);
    }
    if ExtendsByEights(q, p) { var a, b := MeetingNonces(p, q, 16); }
    if ExtendsByEights(p, q) { var b, a := MeetingNonces(q, p, 16); }
  }

  /** No identity extends another by 8 or 16 bytes. */
  predicate DrawnSeparate(ids: set<Peer>) {
    forall p, q :: p in ids && q in ids && p != q ==> !ExtendsByEights(p, q)
  }

  /** No identity extends another. */
  predicate Separate(ids: set<Peer>) {
    forall p, q :: p in ids && q in ids && p != q ==> !Extends(p, q)
  }

  ghost predicate TagsTellApart(ids: set<Peer>) {
    forall p, a, q, b :: p in ids && q in ids && NonceTag(p, a) == NonceTag(q, b) ==> p == q && a == b
  }

  /** The tag determines identity and nonce exactly when no identity extends another. */
  lemma TagsTellApartExactly(ids: set<Peer>)
    ensures TagsTellApart(ids) <==> Separate(ids)
  {
    if Separate(ids) {
      forall p, a, q, b | p in ids && q in ids && NonceTag(p, a) == NonceTag(q, b) ensures p == q && a == b {
        SharedTagExtends(p, a, q, b);
      }
    } else {
      var p, q :| p in ids && q in ids && p != q && Extends(p, q);
      var b, a := MeetingNonces(q, p, 0);
      assert NonceTag(p, a) == NonceTag(q, b);
    }
  }

  // ---- Replay safety over whole runs ---------------------------------------------

  /** Every accept reading after request j, up to and including request k's, has the
      epoch in its window. */
  predicate KeptInWindow(drift: nat, run: seq<Request>, e: nat, j: int, k: int) {
    forall m :: 0 <= m < |run| && j < m <= k ==> run[m].acceptAt <= e + drift
  }

  predicate HasTag(r: Request, e: nat, tag: seq<byte>) {
    r.epoch == e && NonceTag(r.peer, r.ni) == tag
  }

  /** Request j put this tag in the cache of epoch e, and no later request of the
      run pruned it. */
  predicate StillCached(drift: nat, run: seq<Request>, e: nat, tag: seq<byte>, j: int) {
    0 <= j < |run| && HasTag(run[j], e, tag) && KeptInWindow(drift, run, e, j, |run| - 1)
  }

  lemma {:induction false} CacheHolds(drift: nat, run: seq<Request>, e: nat, tag: seq<byte>)
    ensures tag in TagsAt(NoncesAfter(drift, run), e) <==> exists j :: StillCached(drift, run, e, tag, j)
  {
    if run != [] {
      var n := |run| - 1;
      CacheHolds(drift, run[..n], e, tag);
      hide NonceTag;
      forall j | 0 <= j < n
        ensures StillCached(drift, run, e, tag, j)
           <==> StillCached(drift, run[..n], e, tag, j) && run[n].acceptAt <= e + drift
      {
        LongerRun(drift, run, e, tag, j);
      }
      assert HasTag(run[n], e, tag) <==> StillCached(drift, run, e, tag, n);
    }
  }

  lemma LongerRun(drift: nat, run: seq<Request>, e: nat, tag: seq<byte>, j: int)
    requires 0 <= j < |run| - 1
    ensures StillCached(drift, run, e, tag, j)
       <==> StillCached(drift, run[..|run|-1], e, tag, j) && run[|run|-1].acceptAt <= e + drift
  {
    var before := run[..|run|-1];
    if KeptInWindow(drift, run, e, j, |run| - 1) {
      forall m | 0 <= m < |before| && j < m ensures before[m].acceptAt <= e + drift {
        assert before[m] == run[m];
      }
    }
    if KeptInWindow(drift, before, e, j, |before| - 1) && run[|run|-1].acceptAt <= e + drift {
      forall m | 0 <= m < |run| && j < m ensures run[m].acceptAt <= e + drift {
        if m < |before| { assert before[m] == run[m]; }
      }
    }
  }

  predicate RefusedAt(drift: nat, run: seq<Request>, k: int) {
    0 <= k < |run| &&
    Refused(NoncesAfter(drift, run[..k]), run[k].acceptAt, drift, run[k].peer, run[k].epoch, run[k].ni)
  }

  predicate SharesTag(drift: nat, run: seq<Request>, j: int, k: int) {
    0 <= j < k < |run| && HasTag(run[j], run[k].epoch, NonceTag(run[k].peer, run[k].ni))
    && KeptInWindow(drift, run, run[k].epoch, j, k)
  }

  /** Whatever the clock did: request k is refused exactly when an earlier request
      left the same tag and every accept reading since kept its epoch in the window. */
  lemma RefusedByTag(drift: nat, run: seq<Request>, k: nat)
    requires k < |run|
    ensures RefusedAt(drift, run, k) <==> exists j :: SharesTag(drift, run, j, k)
  {
    var e, tag := run[k].epoch, NonceTag(run[k].peer, run[k].ni);
    CacheHolds(drift, run[..k], e, tag);
    hide NoncesAfter, NonceTag;
    forall j | 0 <= j < k
      ensures SharesTag(drift, run, j, k) <==> StillCached(drift, run[..k], e, tag, j) && run[k].acceptAt <= e + drift
    {
      assert run[..k+1][..k] == run[..k];
      LongerRun(drift, run[..k+1], e, tag, j);
      SameWindow(drift, run, e, j, k);
    }
    assert forall j :: StillCached(drift, run[..k], e, tag, j) ==> 0 <= j < k;
    if RefusedAt(drift, run, k) {
      var j :| StillCached(drift, run[..k], e, tag, j);
      assert SharesTag(drift, run, j, k);
    }
  }

  lemma SameWindow(drift: nat, run: seq<Request>, e: nat, j: int, k: nat)
    requires k < |run|
    ensures KeptInWindow(drift, run, e, j, k) <==> KeptInWindow(drift, run[..k+1], e, j, k)
  {
    if KeptInWindow(drift, run[..k+1], e, j, k) {
      forall m | 0 <= m < |run| && j < m <= k ensures run[m].acceptAt <= e + drift {
        assert run[..k+1][m] == run[m];
      }
    }
  }

  predicate RunOver(ids: set<Peer>, run: seq<Request>) {
    forall i :: 0 <= i < |run| ==> run[i].peer in ids
  }

  predicate OneLength(run: seq<Request>) {
    forall i, j :: 0 <= i < |run| && 0 <= j < |run| ==> |run[i].ni.bytes| == |run[j].ni.bytes|
  }

  predicate AllDrawn(run: seq<Request>) {
    forall i :: 0 <= i < |run| ==> DrawnLength(run[i].ni)
  }

  /** Over these identities, nonces of these lengths leave no two equal tags. */
  predicate Unconfused(ids: set<Peer>, run: seq<Request>) {
    Separate(ids) || OneLength(run) || (AllDrawn(run) && DrawnSeparate(ids))
  }

  lemma UnconfusedTags(ids: set<Peer>, run: seq<Request>, j: nat, k: nat)
    requires RunOver(ids, run) && Unconfused(ids, run) && j < |run| && k < |run|
    requires NonceTag(run[j].peer, run[j].ni) == NonceTag(run[k].peer, run[k].ni)
    ensures run[j].peer == run[k].peer && run[j].ni == run[k].ni
  {
    SharedTagExtends(run[j].peer, run[j].ni, run[k].peer, run[k].ni);
    hide NonceTag;
  }

  /** The same (peer, epoch, N_i) came before, and its epoch stayed in the window. */
  predicate Repeats(drift: nat, run: seq<Request>, j: int, k: int) {
    0 <= j < k < |run| && SameTriple(run[j], run[k]) && KeptInWindow(drift, run, run[k].epoch, j, k)
  }

  /** When no enrolled identity extends another, or not by 8 or 16 bytes and all nonces
      have lengths that are drawn, or all have one length: request k is refused exactly
      when the same (peer, epoch, N_i) came before and no accept reading since has put
      the epoch out of the window. */
  lemma RefusedExactly(drift: nat, run: seq<Request>, k: nat, ids: set<Peer>)
    requires k < |run| && RunOver(ids, run) && Unconfused(ids, run)
    ensures RefusedAt(drift, run, k) <==> exists j :: Repeats(drift, run, j, k)
  {
    RefusedByTag(drift, run, k);
    hide RefusedAt, NonceTag, KeptInWindow, Unconfused;
    forall j ensures SharesTag(drift, run, j, k) <==> Repeats(drift, run, j, k) {
      if SharesTag(drift, run, j, k) { UnconfusedTags(ids, run, j, k); }
    }
  }

  /** Request k, the first with its (peer, epoch, N_i), is refused all the same. */
  predicate FreshRefused(drift: nat, run: seq<Request>, k: int) {
    RefusedAt(drift, run, k) && forall j :: 0 <= j < k ==> !SameTriple(run[j], run[k])
  }

  /** No run over these identities refuses a fresh nonce, exactly when none of them
      extends another. */
  lemma FreshRefusedExactly(drift: nat, ids: set<Peer>)
    ensures (exists run, k :: RunOver(ids, run) && FreshRefused(drift, run, k)) <==> !Separate(ids)
  {
    if Separate(ids) {
      forall run, k | RunOver(ids, run) ensures !FreshRefused(drift, run, k) {
        if 0 <= k < |run| { RefusedExactly(drift, run, k, ids); }
      }
    } else {
      var p, q :| p in ids && q in ids && p != q && Extends(p, q);
      var b, a := MeetingNonces(q, p, 0);
      var run := [Request(q, 0, b, 0), Request(p, 0, a, 0)];
      RefusedByTag(drift, run, 1);
      assert SharesTag(drift, run, 0, 1);
      assert RunOver(ids, run) && FreshRefused(drift, run, 1);
    }
  }

  /** No run that draws its nonces refuses a fresh one, exactly when none of the
      identities extends another by 8 or 16 bytes. */
  lemma DrawnFreshRefusedExactly(drift: nat, ids: set<Peer>)
    ensures (exists run, k :: RunOver(ids, run) && AllDrawn(run) && FreshRefused(drift, run, k))
        <==> !DrawnSeparate(ids)
  {
    if DrawnSeparate(ids) {
      forall run, k | RunOver(ids, run) && AllDrawn(run) ensures !FreshRefused(drift, run, k) {
        if 0 <= k < |run| { RefusedExactly(drift, run, k, ids); }
      }
    } else {
      var p, q :| p in ids && q in ids && p != q && ExtendsByEights(p, q);
      var b, a := MeetingNonces(q, p, 16);
      var run := [Request(q, 0, b, 0), Request(p, 0, a, 0)];
      RefusedByTag(drift, run, 1);
      assert SharesTag(drift, run, 0, 1);
      assert RunOver(ids, run) && AllDrawn(run) && FreshRefused(drift, run, 1);
    }
  }

  /** A request resolved at a reading of its own. */
  predicate ResolvedAt(drift: nat, r: Request, resolveAt: nat) {
    resolveAt - drift <= r.epoch <= resolveAt + drift
  }

  predicate AcceptedAt(drift: nat, run: seq<Request>, k: int) {
    0 <= k < |run| && !RefusedAt(drift, run, k)
  }

  /** When resolve and accept of a request read the same epoch and the clock never goes
      back, no (peer, epoch, N_i) is accepted twice. */
  lemma NoTripleTwice(drift: nat, run: seq<Request>, j: nat, k: nat)
    requires ClockAdvances(run) && j < k < |run|
    requires forall i :: 0 <= i < |run| ==> ResolvedAt(drift, run[i], run[i].acceptAt)
    requires AcceptedAt(drift, run, j) && AcceptedAt(drift, run, k)
    ensures !SameTriple(run[j], run[k])
  {
    RefusedByTag(drift, run, k);
    hide RefusedAt;
    assert !SharesTag(drift, run, j, k);
  }

  /** With two readings it can be: the clock ticks between resolving and accepting
      a replay, the pruning forgets the nonce, and the replay is accepted. */
  lemma TickBetweenReadings()
    ensures var p, ni := Peer([1]), Nonce([7]);
            var run := [Request(p, 5, ni, 6), Request(p, 5, ni, 7)];
            && ClockAdvances(run)
            && ResolvedAt(1, run[0], 6) && ResolvedAt(1, run[1], 6)
            && AcceptedAt(1, run, 0) && AcceptedAt(1, run, 1)
            && SameTriple(run[0], run[1])
  {
    var p, ni := Peer([1]), Nonce([7]);
    var run := [Request(p, 5, ni, 6), Request(p, 5, ni, 7)];
    RefusedByTag(1, run, 0);
    RefusedByTag(1, run, 1);
  }

  /** Of two identities one extends the other by eight bytes: the tags of a 24-byte and
      a 16-byte nonce are equal, and the fresh 16-byte nonce is refused. */
  lemma NulConfusesTags()
    ensures var tail, sevens := seq(16, _ => 3), seq(7, _ => 2);
            var p, q := Peer([1]), Peer([1, 0] + sevens);
            var a, b := Nonce(sevens + [0] + tail), Nonce(tail);
            && |a.bytes| == 24 && |b.bytes| == 16 && NonceTag(p, a) == NonceTag(q, b)
            && FreshRefused(1, [Request(p, 5, a, 5), Request(q, 5, b, 5)], 1)
  {
    var tail: seq<byte>, sevens: seq<byte> := seq(16, _ => 3), seq(7, _ => 2);
    var p, q := Peer([1]), Peer([1, 0] + sevens);
    var a, b := Nonce(sevens + [0] + tail), Nonce(tail);
    assert NonceTag(p, a) == [1, 0] + sevens + [0] + tail == NonceTag(q, b);
    var run := [Request(p, 5, a, 5), Request(q, 5, b, 5)];
    RefusedByTag(1, run, 1);
    assert SharesTag(1, run, 0, 1);
  }
}
