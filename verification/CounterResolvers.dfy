/** protocol/resolution.py, counter epochs: LinearScan (O1) and CounterTable (O2). */
module CounterResolvers {
  import opened Terms
  import opened SessionLogs

  /** A server's peer_secrets dictionary, in insertion order. */
  datatype Enrolment = Enrolment(peers: seq<Peer>, secret: map<Peer, nat>)

  ghost predicate ValidEnrolment(en: Enrolment) {
    && (forall i, j :: 0 <= i < j < |en.peers| ==> en.peers[i] != en.peers[j])
    && (forall p :: p in en.peers <==> p in en.secret)
    && (forall p, q {:trigger en.secret[p], en.secret[q]} ::
          p in en.secret && q in en.secret && en.secret[p] == en.secret[q] ==> p == q)
  }

  ghost predicate OwnsAt(en: Enrolment, lam: nat, i: int) {
    0 <= i < |en.peers| && en.peers[i] in en.secret && en.secret[en.peers[i]] == lam
  }

  /** Position of the peer a secret belongs to; no other peer has that secret. */
  ghost function OwnerIndex(en: Enrolment, lam: nat): (r: Option<nat>)
    requires ValidEnrolment(en)
    ensures r.Some? ==> OwnsAt(en, lam, r.value)
    ensures forall i :: OwnsAt(en, lam, i) ==> r == Some(i)
  {
    if i :| OwnsAt(en, lam, i) then
      assert forall j :: OwnsAt(en, lam, j) ==> en.peers[j] == en.peers[i];
      Some(i)
    else None
  }

  /** The peer a secret belongs to. */
  ghost function Owner(en: Enrolment, lam: nat): (r: Option<Peer>)
    requires ValidEnrolment(en)
    ensures r.Some? ==> r.value in en.secret && en.secret[r.value] == lam
    ensures forall p :: p in en.secret && en.secret[p] == lam ==> r == Some(p)
  {
    if OwnerIndex(en, lam).Some? then Some(en.peers[OwnerIndex(en, lam).value])
    else
      assert forall p :: p in en.secret && en.secret[p] == lam ==>
          p in en.peers && exists i :: 0 <= i < |en.peers| && en.peers[i] == p && OwnsAt(en, lam, i);
      None
  }

  datatype Resolution = Found(peer: Peer, epoch: nat) | Replayed(peer: Peer, epoch: nat) | Unknown

  // ---- O1: scan on demand ---------------------------------------------------

  /** What a scan answers, read off the pseudonym. */
  ghost function ScanResolution(en: Enrolment, cfg: LogConfig, last: map<Peer, nat>, pid: Pid): Resolution
    requires ValidEnrolment(en)
  {
    if pid.RawPid? || Owner(en, pid.lam).None? then Unknown
    else
      var p := Owner(en, pid.lam).value;
      if !(WindowLow(cfg, last, p) <= pid.epoch <= WindowHigh(cfg, last, p)) then Unknown
      else if IsStale(last, p, pid.epoch) then Replayed(p, pid.epoch)
      else Found(p, pid.epoch)
  }

  function WindowSize(cfg: LogConfig, last: map<Peer, nat>, p: Peer): nat {
    WindowHigh(cfg, last, p) + 1 - WindowLow(cfg, last, p)
  }

  /** The scan's answer over the integers: for a pseudonym of p and epoch e, a replay from
      last - L to last and a find from last + 1 to last + F, and else unknown. */
  lemma ScanExactly(en: Enrolment, cfg: LogConfig, last: map<Peer, nat>, pid: Pid, p: Peer, e: nat)
    requires ValidEnrolment(en) && p in en.secret
    ensures var (r, l) := (ScanResolution(en, cfg, last, pid), Last(last, p));
            && (r == Replayed(p, e) <==> pid == H2(en.secret[p], e) && l - cfg.lookback <= e <= l)
            && (r == Found(p, e) <==> pid == H2(en.secret[p], e) && l < e <= l + cfg.forward)
            && (pid == H2(en.secret[p], e) ==>
                  (r == Unknown <==> e < l - cfg.lookback || l + cfg.forward < e))
  {
    assert Owner(en, en.secret[p]) == Some(p);
    hide ValidEnrolment;
  }

  /** How many epochs the scan probes for a peer: F before the first success, and then
      the look-back as far as it goes, the last epoch, and F more. */
  lemma WindowSizes(cfg: LogConfig, last: map<Peer, nat>, p: Peer)
    ensures var l := Last(last, p);
            WindowSize(cfg, last, p)
            == if l == -1 then cfg.forward
               else (if l <= cfg.lookback then l as nat else cfg.lookback) + cfg.forward + 1
  {}

  /** Sizes of the windows of the first n peers, added up. */
  function WindowSum(en: Enrolment, cfg: LogConfig, last: map<Peer, nat>, n: nat): nat
    requires n <= |en.peers|
  {
    if n == 0 then 0 else WindowSum(en, cfg, last, n - 1) + WindowSize(cfg, last, en.peers[n-1])
  }

  ghost function ScanCost(en: Enrolment, cfg: LogConfig, last: map<Peer, nat>, pid: Pid): nat
    requires ValidEnrolment(en)
  {
    if ScanResolution(en, cfg, last, pid).Unknown? then WindowSum(en, cfg, last, |en.peers|)
    else
      var i := OwnerIndex(en, pid.lam).value;
      WindowSum(en, cfg, last, i) + pid.epoch - WindowLow(cfg, last, en.peers[i]) + 1
  }

  /** Once every peer is past the look-back, every window has L + F + 1 epochs. */
  lemma {:induction false} SteadyWindowSum(en: Enrolment, cfg: LogConfig, last: map<Peer, nat>, n: nat)
    requires n <= |en.peers|
    requires forall p :: p in en.peers ==> Last(last, p) >= cfg.lookback
    ensures WindowSum(en, cfg, last, n) == n * (cfg.lookback + cfg.forward + 1)
  {
    if n > 0 {
      SteadyWindowSum(en, cfg, last, n - 1);
      assert en.peers[n-1] in en.peers;
      calc {
        n * (cfg.lookback + cfg.forward + 1);
        (n - 1) * (cfg.lookback + cfg.forward + 1) + (cfg.lookback + cfg.forward + 1);
      }
    }
  }

  /** The steady-state costs: a forged pseudonym costs N(L + F + 1) probes, the
      i-th peer's next epoch i(L + F + 1) + L + 2. */
  lemma SteadyScanCost(en: Enrolment, cfg: LogConfig, last: map<Peer, nat>, pid: Pid)
    requires ValidEnrolment(en)
    requires forall p :: p in en.peers ==> Last(last, p) >= cfg.lookback
    ensures ScanResolution(en, cfg, last, pid).Unknown? ==>
              ScanCost(en, cfg, last, pid) == |en.peers| * (cfg.lookback + cfg.forward + 1)
    ensures forall i :: cfg.forward > 0 && 0 <= i < |en.peers|
                        && pid == H2(en.secret[en.peers[i]], Last(last, en.peers[i]) + 1) ==>
              ScanCost(en, cfg, last, pid) == i * (cfg.lookback + cfg.forward + 1) + cfg.lookback + 2
  {
    SteadyWindowSum(en, cfg, last, |en.peers|);
    forall i | cfg.forward > 0 && 0 <= i < |en.peers|
               && pid == H2(en.secret[en.peers[i]], Last(last, en.peers[i]) + 1)
      ensures ScanCost(en, cfg, last, pid) == i * (cfg.lookback + cfg.forward + 1) + cfg.lookback + 2
    {
      assert OwnsAt(en, pid.lam, i);
      SteadyWindowSum(en, cfg, last, i);
    }
  }

  /** The pseudonym is one of the i-th peer, in its window. */
  ghost predicate HitAt(en: Enrolment, cfg: LogConfig, last: map<Peer, nat>, pid: Pid, i: int) {
    pid.H2? && OwnsAt(en, pid.lam, i) &&
    WindowLow(cfg, last, en.peers[i]) <= pid.epoch <= WindowHigh(cfg, last, en.peers[i])
  }

  lemma ScanStopsAt(en: Enrolment, cfg: LogConfig, last: map<Peer, nat>, pid: Pid, i: nat)
    requires ValidEnrolment(en) && HitAt(en, cfg, last, pid, i)
    ensures ScanResolution(en, cfg, last, pid)
         == if IsStale(last, en.peers[i], pid.epoch) then Replayed(en.peers[i], pid.epoch)
            else Found(en.peers[i], pid.epoch)
    ensures ScanCost(en, cfg, last, pid)
         == WindowSum(en, cfg, last, i) + pid.epoch - WindowLow(cfg, last, en.peers[i]) + 1
  {
    hide ValidEnrolment;
  }

  lemma ScanFails(en: Enrolment, cfg: LogConfig, last: map<Peer, nat>, pid: Pid)
    requires ValidEnrolment(en) && forall i :: 0 <= i < |en.peers| ==> !HitAt(en, cfg, last, pid, i)
    ensures ScanResolution(en, cfg, last, pid) == Unknown
    ensures ScanCost(en, cfg, last, pid) == WindowSum(en, cfg, last, |en.peers|)
  {
    hide ValidEnrolment;
    if pid.H2? && OwnerIndex(en, pid.lam).Some? {
      assert !HitAt(en, cfg, last, pid, OwnerIndex(en, pid.lam).value);
    }
  }

  class LinearScan {
    const en: Enrolment
    const log: SessionLog
    var probes: nat

    constructor (en: Enrolment, log: SessionLog)
      ensures this.en == en && this.log == log && probes == 0
    {
      this.en, this.log, probes := en, log, 0;
    }

    method Resolve(pid: Pid) returns (r: Resolution)
      requires ValidEnrolment(en)
      modifies `probes
      ensures r == ScanResolution(en, log.cfg, log.last, pid)
      ensures probes == old(probes) + ScanCost(en, log.cfg, log.last, pid)
    {
      assert forall i :: 0 <= i < |en.peers| ==> en.peers[i] in en.secret;
      hide ValidEnrolment, ScanResolution, ScanCost;
      for i := 0 to |en.peers|
        invariant probes == old(probes) + WindowSum(en, log.cfg, log.last, i)
        invariant forall j :: 0 <= j < i ==> !HitAt(en, log.cfg, log.last, pid, j)
      {
        var p := en.peers[i];
        var epoch := ScanWindow(p, en.secret[p], pid);
        if epoch.Some? {
          ScanStopsAt(en, log.cfg, log.last, pid, i);
          return if IsStale(log.last, p, epoch.value) then Replayed(p, epoch.value) else Found(p, epoch.value);
        }
      }
      ScanFails(en, log.cfg, log.last, pid);
      r := Unknown;
    }

    /** The inner loop: the epoch of one peer's window that matches, if any. */
    method ScanWindow(p: Peer, lam: nat, pid: Pid) returns (epoch: Option<nat>)
      modifies `probes
      ensures var lo, hi := WindowLow(log.cfg, log.last, p), WindowHigh(log.cfg, log.last, p);
              && epoch == (if pid.H2? && pid.lam == lam && lo <= pid.epoch <= hi then Some(pid.epoch) else None)
              && probes == old(probes) + if epoch.Some? then epoch.value - lo + 1 else WindowSize(log.cfg, log.last, p)
    {
      var lo, hi := WindowLow(log.cfg, log.last, p), WindowHigh(log.cfg, log.last, p);
      var e := lo;
      while e <= hi
        invariant lo <= e <= hi + 1
        invariant probes == old(probes) + e - lo
        invariant pid.H2? && pid.lam == lam ==> !(lo <= pid.epoch < e)
      {
        probes := probes + 1;
        if H2(lam, e) == pid {
          return Some(e);
        }
        e := e + 1;
      }
      epoch := None;
    }

    method Accept(p: Peer, epoch: nat)
      modifies log`last
      ensures log.State() == AfterAccept(old(log.State()), p, epoch)
    {
      log.AcceptEpoch(p, epoch);
    }
  }

  // ---- O2: precomputed table ------------------------------------------------

  /** The table's answer, read off the pseudonym: only epochs last+1 .. last+F. */
  ghost function TableResolution(en: Enrolment, forward: nat, last: map<Peer, nat>, pid: Pid): Resolution
    requires ValidEnrolment(en)
  {
    if pid.RawPid? || Owner(en, pid.lam).None? then Unknown
    else
      var p := Owner(en, pid.lam).value;
      if Last(last, p) < pid.epoch <= Last(last, p) + forward then Found(p, pid.epoch) else Unknown
  }

  /** With equal forward tolerance the table answers as the scan does, except that
      it no longer knows the pseudonyms the scan calls replayed. */
  lemma TableRefinesScan(en: Enrolment, cfg: LogConfig, last: map<Peer, nat>, pid: Pid)
    requires ValidEnrolment(en)
    ensures TableResolution(en, cfg.forward, last, pid)
         == (var scanned := ScanResolution(en, cfg, last, pid); if scanned.Replayed? then Unknown else scanned)
  {
    if pid.H2? && Owner(en, pid.lam).Some? {
      var p := Owner(en, pid.lam).value;
      assert WindowLow(cfg, last, p) <= Last(last, p) + 1;
    }
  }

  /** Highest epoch tabled for a peer; never below its last accepted epoch. */
  function Highest(hi: map<Peer, int>, last: map<Peer, nat>, p: Peer): int {
    if p in hi && hi[p] > Last(last, p) then hi[p] else Last(last, p)
  }

  ghost predicate InRange(en: Enrolment, last: map<Peer, nat>, hi: map<Peer, int>, k: Pid)
    requires ValidEnrolment(en)
  {
    k.H2? && Owner(en, k.lam).Some? &&
    var p := Owner(en, k.lam).value;
    Last(last, p) < k.epoch <= Highest(hi, last, p)
  }

  /** The table holds, for every peer, exactly the epochs last+1 .. Highest. */
  ghost predicate RangeTable(table: map<Pid, (Peer, nat)>, en: Enrolment, last: map<Peer, nat>, hi: map<Peer, int>)
    requires ValidEnrolment(en)
  {
    && (forall k :: k in table <==> InRange(en, last, hi, k))
    && (forall k :: k in table ==> table[k] == (Owner(en, k.lam).value, k.epoch))
  }

  lemma HighestIsEnough(table: map<Pid, (Peer, nat)>, en: Enrolment, last: map<Peer, nat>, hi: map<Peer, int>, p: Peer)
    requires ValidEnrolment(en) && RangeTable(table, en, last, hi)
    ensures RangeTable(table, en, last, hi[p := Highest(hi, last, p)])
  {
    hide ValidEnrolment;
    forall k ensures InRange(en, last, hi[p := Highest(hi, last, p)], k) <==> InRange(en, last, hi, k) {}
  }

  lemma FillStep(table: map<Pid, (Peer, nat)>, en: Enrolment, last: map<Peer, nat>, hi: map<Peer, int>, p: Peer,
                 epoch: nat)
    requires ValidEnrolment(en) && p in en.secret
    requires RangeTable(table, en, last, hi)
    requires epoch == Highest(hi, last, p) + 1
    ensures RangeTable(table[H2(en.secret[p], epoch) := (p, epoch)], en, last, hi[p := epoch])
  {
    hide ValidEnrolment, InRange, Highest;
    forall k
      ensures InRange(en, last, hi[p := epoch], k) <==> InRange(en, last, hi, k) || k == H2(en.secret[p], epoch)
    {
      KeyFilled(en, last, hi, p, epoch, k);
    }
  }

  lemma KeyFilled(en: Enrolment, last: map<Peer, nat>, hi: map<Peer, int>, p: Peer, epoch: nat, k: Pid)
    requires ValidEnrolment(en) && p in en.secret && epoch == Highest(hi, last, p) + 1
    ensures InRange(en, last, hi[p := epoch], k) <==> InRange(en, last, hi, k) || k == H2(en.secret[p], epoch)
  {
    if k.H2? && Owner(en, k.lam).Some? {
      assert Owner(en, k.lam).value != p ==> k.lam != en.secret[p];
    }
  }

  lemma DropStep(table: map<Pid, (Peer, nat)>, en: Enrolment, last: map<Peer, nat>, hi: map<Peer, int>, p: Peer,
                 epoch: nat)
    requires ValidEnrolment(en) && p in en.secret
    requires RangeTable(table, en, last, hi)
    ensures var newLast := AdvanceLast(last, p, epoch);
            RangeTable(table - (set k | k in table && table[k].0 == p && table[k].1 <= Last(newLast, p)), en,
                       newLast, hi)
  {
    var newLast := AdvanceLast(last, p, epoch);
    forall k ensures InRange(en, newLast, hi, k) <==>
                     InRange(en, last, hi, k) && !(Owner(en, k.lam).value == p && k.epoch <= Last(newLast, p)) {}
  }

  /** Probes one accept costs. */
  function AcceptCost(forward: nat, last: map<Peer, nat>, p: Peer, epoch: nat): nat {
    if epoch <= Last(last, p) then 0
    else if epoch - Last(last, p) <= forward then epoch - Last(last, p)
    else forward
  }

  class CounterTable {
    const en: Enrolment
    const log: SessionLog
    const forward: nat
    var table: map<Pid, (Peer, nat)>
    var hi: map<Peer, int>
    var probes: nat
    var precomputeProbes: nat

    ghost predicate Valid()
      reads this, log
    {
      && ValidEnrolment(en)
      && hi.Keys == en.secret.Keys
      && (forall p :: p in hi ==> hi[p] == Last(log.last, p) + forward)
      && RangeTable(table, en, log.last, hi)
    }

    constructor (en: Enrolment, log: SessionLog, forwardTolerance: Option<nat>)
      requires ValidEnrolment(en)
      ensures this.en == en && this.log == log
      ensures forward == if forwardTolerance.Some? then forwardTolerance.value else log.cfg.forward
      ensures Valid() && probes == 0 && precomputeProbes == |en.peers| * forward
    {
      this.en, this.log := en, log;
      forward := if forwardTolerance.Some? then forwardTolerance.value else log.cfg.forward;
      table, hi, probes, precomputeProbes := map[], map[], 0, 0;
      new;
      for i := 0 to |en.peers|
        invariant probes == 0 && precomputeProbes == i * forward
        invariant forall p :: p in hi <==> p in en.peers[..i]
        invariant forall p :: p in hi ==> hi[p] == Last(log.last, p) + forward
        invariant RangeTable(table, en, log.last, hi)
      {
        assert en.peers[..i+1] == en.peers[..i] + [en.peers[i]];
        assert (i + 1) * forward == i * forward + forward;
        Fill(en.peers[i], true);
      }
      assert en.peers[..|en.peers|] == en.peers;
    }

    method Fill(p: Peer, precompute: bool)
      requires ValidEnrolment(en) && p in en.secret
      requires RangeTable(table, en, log.last, hi)
      requires Highest(hi, log.last, p) <= Last(log.last, p) + forward
      modifies `table, `hi, `probes, `precomputeProbes
      ensures hi == old(hi)[p := Last(log.last, p) + forward]
      ensures RangeTable(table, en, log.last, hi)
      ensures var filled := Last(log.last, p) + forward - Highest(old(hi), log.last, p);
              && probes == old(probes) + (if precompute then 0 else filled)
              && precomputeProbes == old(precomputeProbes) + (if precompute then filled else 0)
    {
      hide RangeTable, ValidEnrolment;
      var last := Last(log.last, p);
      var epoch := Highest(hi, log.last, p) + 1;
      var lam := en.secret[p];
      ghost var first := epoch;
      HighestIsEnough(table, en, log.last, hi, p);
      while epoch < last + forward + 1
        invariant first <= epoch <= last + forward + 1
        invariant hi == old(hi)
        invariant RangeTable(table, en, log.last, hi[p := epoch - 1])
        invariant probes == old(probes) + (if precompute then 0 else epoch - first)
        invariant precomputeProbes == old(precomputeProbes) + (if precompute then epoch - first else 0)
      {
        if precompute { precomputeProbes := precomputeProbes + 1; } else { probes := probes + 1; }
        FillStep(table, en, log.last, hi[p := epoch - 1], p, epoch);
        table := table[H2(lam, epoch) := (p, epoch)];
        assert hi[p := epoch - 1][p := epoch] == hi[p := epoch];
        epoch := epoch + 1;
      }
      hi := hi[p := last + forward];
    }

    method Resolve(pid: Pid) returns (r: Resolution)
      requires Valid()
      ensures r == TableResolution(en, forward, log.last, pid)
    {
      if pid in table {
        return Found(table[pid].0, table[pid].1);
      }
      r := Unknown;
    }

    method Accept(p: Peer, epoch: nat)
      requires Valid() && p in en.secret
      modifies `table, `hi, `probes, `precomputeProbes, log`last
      ensures Valid()
      ensures log.State() == AfterAccept(old(log.State()), p, epoch)
      ensures probes == old(probes) + AcceptCost(forward, old(log.last), p, epoch)
      ensures precomputeProbes == old(precomputeProbes)
    {
      hide RangeTable, ValidEnrolment;
      log.AcceptEpoch(p, epoch);
      var last := Last(log.last, p);
      DropStep(table, en, old(log.last), hi, p, epoch);
      table := table - (set k | k in table && table[k].0 == p && table[k].1 <= last);
      Fill(p, false);
    }
  }

  // ---- Size and amortised cost of the table ---------------------------------

  ghost function RowKeys(lam: nat, last: int, n: nat): set<Pid>
    requires last >= -1
  {
    if n == 0 then {} else RowKeys(lam, last, n - 1) + {H2(lam, (last + n) as nat)}
  }

  lemma {:induction false} RowSize(lam: nat, last: int, n: nat)
    requires last >= -1
    ensures |RowKeys(lam, last, n)| == n
    ensures forall k :: k in RowKeys(lam, last, n) <==> k.H2? && k.lam == lam && last < k.epoch <= last + n
  {
    if n > 0 { RowSize(lam, last, n - 1); }
  }

  ghost function AllKeys(en: Enrolment, last: map<Peer, nat>, forward: nat, i: nat): set<Pid>
    requires ValidEnrolment(en) && i <= |en.peers|
  {
    if i == 0 then {}
    else
      assert en.peers[i-1] in en.peers;
      AllKeys(en, last, forward, i - 1) + RowKeys(en.secret[en.peers[i-1]], Last(last, en.peers[i-1]), forward)
  }

  ghost predicate KeyOfFirst(en: Enrolment, last: map<Peer, nat>, forward: nat, i: nat, k: Pid)
    requires ValidEnrolment(en) && i <= |en.peers|
  {
    k.H2? && OwnerIndex(en, k.lam).Some? && OwnerIndex(en, k.lam).value < i &&
    var p := en.peers[OwnerIndex(en, k.lam).value];
    Last(last, p) < k.epoch <= Last(last, p) + forward
  }

  lemma KeyOfNext(en: Enrolment, last: map<Peer, nat>, forward: nat, i: nat, k: Pid)
    requires ValidEnrolment(en) && i < |en.peers| && en.peers[i] in en.secret
    ensures KeyOfFirst(en, last, forward, i + 1, k) <==>
              KeyOfFirst(en, last, forward, i, k)
                  || k in RowKeys(en.secret[en.peers[i]], Last(last, en.peers[i]), forward)
    ensures !(KeyOfFirst(en, last, forward, i, k)
              && k in RowKeys(en.secret[en.peers[i]], Last(last, en.peers[i]), forward))
  {
    hide ValidEnrolment;
    RowSize(en.secret[en.peers[i]], Last(last, en.peers[i]), forward);
    assert OwnsAt(en, en.secret[en.peers[i]], i);
  }

  lemma {:induction false} AllKeysAre(en: Enrolment, last: map<Peer, nat>, forward: nat, i: nat, k: Pid)
    requires ValidEnrolment(en) && i <= |en.peers|
    ensures k in AllKeys(en, last, forward, i) <==> KeyOfFirst(en, last, forward, i, k)
  {
    if i > 0 {
      assert en.peers[i-1] in en.peers;
      AllKeysAre(en, last, forward, i - 1, k);
      KeyOfNext(en, last, forward, i - 1, k);
    }
  }

  lemma RowIsNew(en: Enrolment, last: map<Peer, nat>, forward: nat, i: nat, k: Pid)
    requires ValidEnrolment(en) && i < |en.peers| && en.peers[i] in en.secret
    requires k in AllKeys(en, last, forward, i)
    ensures k !in RowKeys(en.secret[en.peers[i]], Last(last, en.peers[i]), forward)
  {
    AllKeysAre(en, last, forward, i, k);
    KeyOfNext(en, last, forward, i, k);
  }

  lemma AllKeysGrow(en: Enrolment, last: map<Peer, nat>, forward: nat, i: nat)
    requires ValidEnrolment(en) && i < |en.peers|
    ensures |AllKeys(en, last, forward, i + 1)| == |AllKeys(en, last, forward, i)| + forward
  {
    assert en.peers[i] in en.peers;
    var p := en.peers[i];
    var row := RowKeys(en.secret[p], Last(last, p), forward);
    RowSize(en.secret[p], Last(last, p), forward);
    hide ValidEnrolment, RowKeys;
    forall k | k in AllKeys(en, last, forward, i) ensures k !in row {
      RowIsNew(en, last, forward, i, k);
    }
    assert AllKeys(en, last, forward, i) !! row;
    hide Last;
    assert AllKeys(en, last, forward, i + 1) == AllKeys(en, last, forward, i) + row;
  }

  lemma AllKeysNone(en: Enrolment, last: map<Peer, nat>, forward: nat)
    requires ValidEnrolment(en)
    ensures AllKeys(en, last, forward, 0) == {}
  {
    hide ValidEnrolment;
  }

  lemma {:induction false} AllKeysSize(en: Enrolment, last: map<Peer, nat>, forward: nat, i: nat)
    requires ValidEnrolment(en) && i <= |en.peers|
    ensures |AllKeys(en, last, forward, i)| == i * forward
  {
    hide *;
    if i == 0 {
      AllKeysNone(en, last, forward);
    } else {
      AllKeysSize(en, last, forward, i - 1);
      AllKeysGrow(en, last, forward, i - 1);
      MulStep(i, forward);
    }
  }

  lemma MulStep(i: nat, n: nat)
    requires i > 0
    ensures (i - 1) * n + n == i * n
  {}

  lemma TableKey(t: CounterTable, k: Pid)
    requires t.Valid()
    ensures k in t.table <==> KeyOfFirst(t.en, t.log.last, t.forward, |t.en.peers|, k)
  {
    assert k in t.table <==> InRange(t.en, t.log.last, t.hi, k);
  }

  /** Between requests the table has N F entries. */
  lemma TableSize(t: CounterTable)
    requires t.Valid()
    ensures |t.table| == |t.en.peers| * t.forward
  {
    var n := |t.en.peers|;
    var keys := AllKeys(t.en, t.log.last, t.forward, n);
    forall k ensures k in t.table.Keys <==> k in keys {
      AllKeysAre(t.en, t.log.last, t.forward, n, k);
      TableKey(t, k);
    }
    assert t.table.Keys == keys;
    AllKeysSize(t.en, t.log.last, t.forward, n);
    assert |t.table| == |t.table.Keys|;
  }

  const TABLE_ENTRY_BYTES: nat := 40
  const COUNTER_BYTES: nat := 8

  /** ... and so takes (40 F + 8) N bytes. */
  lemma TableStorage(t: CounterTable)
    requires t.Valid()
    ensures TABLE_ENTRY_BYTES * |t.table| + COUNTER_BYTES * |t.en.peers|
         == (40 * t.forward + 8) * |t.en.peers|
  {
    hide ValidEnrolment, RangeTable;
    TableSize(t);
    Spread(t.forward, |t.en.peers|);
  }

  lemma Spread(f: nat, n: nat)
    ensures 40 * (n * f) + 8 * n == (40 * f + 8) * n
  {}

  datatype Acceptance = Acceptance(peer: Peer, epoch: nat)

  function LastAfter(last: map<Peer, nat>, run: seq<Acceptance>): map<Peer, nat>
    decreases |run|
  {
    if run == [] then last
    else LastAfter(AdvanceLast(last, run[0].peer, run[0].epoch), run[1..])
  }

  /** Each acceptance is one the table resolves at its turn. */
  predicate Resolvable(forward: nat, last: map<Peer, nat>, run: seq<Acceptance>)
    decreases |run|
  {
    run == [] ||
    (&& Last(last, run[0].peer) < run[0].epoch <= Last(last, run[0].peer) + forward
     && Resolvable(forward, AdvanceLast(last, run[0].peer, run[0].epoch), run[1..]))
  }

  function RunCost(forward: nat, last: map<Peer, nat>, run: seq<Acceptance>): nat
    decreases |run|
  {
    if run == [] then 0
    else AcceptCost(forward, last, run[0].peer, run[0].epoch)
         + RunCost(forward, AdvanceLast(last, run[0].peer, run[0].epoch), run[1..])
  }

  /** How far the peers' last epochs moved between two states, added up. */
  function Moved(peers: seq<Peer>, from: map<Peer, nat>, to: map<Peer, nat>): int {
    if peers == [] then 0
    else Moved(peers[1..], from, to) + Last(to, peers[0]) - Last(from, peers[0])
  }

  lemma {:induction false} MovedAdds(peers: seq<Peer>, a: map<Peer, nat>, b: map<Peer, nat>, c: map<Peer, nat>)
    ensures Moved(peers, a, c) == Moved(peers, a, b) + Moved(peers, b, c)
  {
    if peers != [] { MovedAdds(peers[1..], a, b, c); }
  }

  lemma {:induction false} MovedByOne(peers: seq<Peer>, last: map<Peer, nat>, p: Peer, epoch: nat)
    requires forall i, j :: 0 <= i < j < |peers| ==> peers[i] != peers[j]
    requires epoch > Last(last, p)
    ensures Moved(peers, last, AdvanceLast(last, p, epoch)) == if p in peers then epoch - Last(last, p) else 0
  {
    if peers != [] { MovedByOne(peers[1..], last, p, epoch); }
  }

  /** Over any run, the accept probes add up to the distance the last epochs moved. */
  lemma {:induction false} AmortisedAcceptCost(en: Enrolment, forward: nat, last: map<Peer, nat>, run: seq<Acceptance>)
    requires ValidEnrolment(en)
    requires Resolvable(forward, last, run)
    requires forall i :: 0 <= i < |run| ==> run[i].peer in en.peers
    decreases |run|
    ensures RunCost(forward, last, run) == Moved(en.peers, last, LastAfter(last, run))
  {
    if run == [] {
      MovedAdds(en.peers, last, last, last);
    } else {
      var next := AdvanceLast(last, run[0].peer, run[0].epoch);
      AmortisedAcceptCost(en, forward, next, run[1..]);
      MovedByOne(en.peers, last, run[0].peer, run[0].epoch);
      MovedAdds(en.peers, last, next, LastAfter(next, run[1..]));
    }
  }
}
