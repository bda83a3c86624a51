/** storage/session_log.py: the replay window and the block-list. */
module SessionLogs {
  import opened Terms

  datatype LogConfig = LogConfig(maxAttempts: int, forward: nat, lookback: nat)

  /** One call of a block listener. */
  datatype Notice = Notice(listener: nat, peer: Peer)

  datatype LogState = LogState(
    last: map<Peer, nat>, failed: map<Peer, nat>, blocked: set<Peer>,
    listeners: seq<nat>, notices: seq<Notice>)

  const EMPTY_LOG := LogState(map[], map[], {}, [], [])

  function Last(last: map<Peer, nat>, p: Peer): (l: int)
    ensures l >= -1
  {
    if p in last then last[p] else -1
  }

  /** The probed epochs are WindowLow .. WindowHigh, both included. */
  function WindowLow(cfg: LogConfig, last: map<Peer, nat>, p: Peer): nat {
    var lo := Last(last, p) - cfg.lookback;
    if lo < 0 then 0 else lo
  }

  function WindowHigh(cfg: LogConfig, last: map<Peer, nat>, p: Peer): (hi: int)
    ensures WindowLow(cfg, last, p) <= hi + 1
  {
    Last(last, p) + cfg.forward
  }

  predicate IsStale(last: map<Peer, nat>, p: Peer, epoch: nat) {
    epoch <= Last(last, p)
  }

  function AdvanceLast(last: map<Peer, nat>, p: Peer, epoch: nat): map<Peer, nat> {
    if epoch > Last(last, p) then last[p := epoch] else last
  }

  function Failures(s: LogState, p: Peer): nat {
    if p in s.failed then s.failed[p] else 0
  }

  function NoticesTo(listeners: seq<nat>, p: Peer): seq<Notice> {
    seq(|listeners|, i requires 0 <= i < |listeners| => Notice(listeners[i], p))
  }

  /** A peer enters the block-list once, and only then are the listeners called. */
  function AfterBlock(s: LogState, p: Peer): LogState {
    if p in s.blocked then s
    else s.(blocked := s.blocked + {p}, notices := s.notices + NoticesTo(s.listeners, p))
  }

  function AfterFailure(cfg: LogConfig, s: LogState, p: Peer): LogState {
    if p in s.blocked then s
    else
      var counted := s.(failed := s.failed[p := Failures(s, p) + 1]);
      if Failures(s, p) + 1 >= cfg.maxAttempts then AfterBlock(counted, p) else counted
  }

  function AfterSuccess(s: LogState, p: Peer): LogState {
    s.(failed := s.failed - {p})
  }

  function AfterAccept(s: LogState, p: Peer, epoch: nat): LogState {
    s.(last := AdvanceLast(s.last, p, epoch))
  }

  class SessionLog {
    const cfg: LogConfig
    var last: map<Peer, nat>
    var failed: map<Peer, nat>
    var blocked: set<Peer>
    var listeners: seq<nat>
    var notices: seq<Notice>

    function State(): LogState
      reads this
    {
      LogState(last, failed, blocked, listeners, notices)
    }

    constructor (cfg: LogConfig)
      ensures this.cfg == cfg && State() == EMPTY_LOG
    {
      this.cfg := cfg;
      last, failed, blocked, listeners, notices := map[], map[], {}, [], [];
    }

    method AcceptEpoch(p: Peer, epoch: nat)
      modifies `last
      ensures State() == AfterAccept(old(State()), p, epoch)
      ensures Last(last, p) == (if epoch > old(Last(last, p)) then epoch else old(Last(last, p)))
      ensures forall q :: q != p ==> Last(last, q) == old(Last(last, q))
    {
      var l := Last(last, p);
      if epoch > l {
        last := last[p := epoch];
      }
    }

    method RecordFailure(p: Peer) returns (isBlocked: bool)
      modifies `failed, `blocked, `notices
      ensures State() == AfterFailure(cfg, old(State()), p)
      ensures isBlocked <==> p in blocked
    {
      if p in blocked {
        return true;
      }
      var count := (if p in failed then failed[p] else 0) + 1;
      failed := failed[p := count];
      if count >= cfg.maxAttempts {
        Block(p);
        return true;
      }
      return false;
    }

    method RecordSuccess(p: Peer)
      modifies `failed
      ensures State() == AfterSuccess(old(State()), p)
    {
      failed := failed - {p};
    }

    method Block(p: Peer)
      modifies `blocked, `notices
      ensures State() == AfterBlock(old(State()), p)
    {
      var newlyBlocked := p !in blocked;
      blocked := blocked + {p};
      if newlyBlocked {
        for i := 0 to |listeners|
          invariant blocked == old(blocked) + {p}
          invariant notices == old(notices) + NoticesTo(listeners, p)[..i]
        {
          notices := notices + [Notice(listeners[i], p)];
        }
        assert NoticesTo(listeners, p)[..|listeners|] == NoticesTo(listeners, p);
      } else {
        assert blocked == old(blocked);
      }
    }

    method SubscribeBlock(listener: nat)
      modifies `listeners
      ensures State() == old(State()).(listeners := old(listeners) + [listener])
    {
      listeners := listeners + [listener];
    }
  }

  // ---- Whole call sequences -------------------------------------------------

  datatype LogCall =
    | OnAccept(peer: Peer, epoch: nat)
    | OnFailure(peer: Peer)
    | OnSuccess(peer: Peer)
    | OnBlock(peer: Peer)
    | OnSubscribe(listener: nat)

  function AfterCall(cfg: LogConfig, s: LogState, call: LogCall): LogState {
    match call
    case OnAccept(p, e) => AfterAccept(s, p, e)
    case OnFailure(p) => AfterFailure(cfg, s, p)
    case OnSuccess(p) => AfterSuccess(s, p)
    case OnBlock(p) => AfterBlock(s, p)
    case OnSubscribe(l) => s.(listeners := s.listeners + [l])
  }

  function AfterCalls(cfg: LogConfig, calls: seq<LogCall>): LogState {
    if calls == [] then EMPTY_LOG
    else AfterCall(cfg, AfterCalls(cfg, calls[..|calls|-1]), calls[|calls|-1])
  }

  /** Failures of p since p's last success, read off the calls alone. */
  function FailuresInARow(calls: seq<LogCall>, p: Peer): nat {
    if calls == [] then 0
    else
      var before := FailuresInARow(calls[..|calls|-1], p);
      match calls[|calls|-1]
      case OnFailure(q) => if q == p then before + 1 else before
      case OnSuccess(q) => if q == p then 0 else before
      case _ => before
  }

  /** The last call is one that must put p on the block-list. */
  predicate Trips(cfg: LogConfig, calls: seq<LogCall>, p: Peer) {
    |calls| > 0 &&
    match calls[|calls|-1]
    case OnBlock(q) => q == p
    case OnFailure(q) => q == p && FailuresInARow(calls, p) >= cfg.maxAttempts
    case _ => false
  }

  predicate TripsAt(cfg: LogConfig, calls: seq<LogCall>, k: int, p: Peer) {
    0 <= k < |calls| && Trips(cfg, calls[..k+1], p)
  }

  lemma TripsInPrefix(cfg: LogConfig, calls: seq<LogCall>, n: nat, p: Peer)
    requires n <= |calls|
    ensures forall k :: k < n ==> TripsAt(cfg, calls[..n], k, p) == TripsAt(cfg, calls, k, p)
  {
    forall k | 0 <= k < n ensures TripsAt(cfg, calls[..n], k, p) == TripsAt(cfg, calls, k, p) {
      assert calls[..n][..k+1] == calls[..k+1];
    }
  }

  function ListenersOf(calls: seq<LogCall>): seq<nat> {
    if calls == [] then []
    else
      var before := ListenersOf(calls[..|calls|-1]);
      var c := calls[|calls|-1];
      if c.OnSubscribe? then before + [c.listener] else before
  }

  /** The listeners told about p, in the order they were called. */
  function ToldAbout(notices: seq<Notice>, p: Peer): seq<nat> {
    if notices == [] then []
    else
      var before := ToldAbout(notices[..|notices|-1], p);
      var n := notices[|notices|-1];
      if n.peer == p then before + [n.listener] else before
  }

  lemma {:induction false} ToldAboutBurst(notices: seq<Notice>, listeners: seq<nat>, q: Peer, p: Peer)
    ensures ToldAbout(notices + NoticesTo(listeners, q), p)
         == ToldAbout(notices, p) + (if p == q then listeners else [])
  {
    var burst := NoticesTo(listeners, q);
    if listeners == [] {
      assert notices + burst == notices;
    } else {
      var k := |listeners| - 1;
      ToldAboutBurst(notices, listeners[..k], q, p);
      assert (notices + burst)[..|notices| + k] == notices + NoticesTo(listeners[..k], q);
      assert listeners == listeners[..k] + [listeners[k]];
    }
  }

  /** One call's effect on the block-list and on what p's listeners hear. */
  lemma CallStep(cfg: LogConfig, s: LogState, call: LogCall, p: Peer)
    ensures var next := AfterCall(cfg, s, call);
            && s.blocked <= next.blocked
            && ToldAbout(next.notices, p)
               == ToldAbout(s.notices, p) + (if p in next.blocked && p !in s.blocked then s.listeners else [])
  {
    match call
    case OnFailure(q) => ToldAboutBurst(s.notices, s.listeners, q, p);
    case OnBlock(q) => ToldAboutBurst(s.notices, s.listeners, q, p);
    case _ =>
  }

  /** What one more call does to p, given what the earlier calls did. */
  lemma BlockStep(cfg: LogConfig, calls: seq<LogCall>, p: Peer)
    requires |calls| > 0
    requires p !in AfterCalls(cfg, calls[..|calls|-1]).blocked ==>
               Failures(AfterCalls(cfg, calls[..|calls|-1]), p) == FailuresInARow(calls[..|calls|-1], p)
    ensures p !in AfterCalls(cfg, calls).blocked ==> Failures(AfterCalls(cfg, calls), p) == FailuresInARow(calls, p)
    ensures p in AfterCalls(cfg, calls).blocked <==>
              p in AfterCalls(cfg, calls[..|calls|-1]).blocked || Trips(cfg, calls, p)
    ensures ToldAbout(AfterCalls(cfg, calls).notices, p)
         == ToldAbout(AfterCalls(cfg, calls[..|calls|-1]).notices, p)
            + (if p in AfterCalls(cfg, calls).blocked && p !in AfterCalls(cfg, calls[..|calls|-1]).blocked
               then AfterCalls(cfg, calls[..|calls|-1]).listeners else [])
  {
    hide ToldAbout, NoticesTo;
    CallStep(cfg, AfterCalls(cfg, calls[..|calls|-1]), calls[|calls|-1], p);
  }

  lemma {:induction false} CountsAgree(cfg: LogConfig, calls: seq<LogCall>, p: Peer)
    ensures p !in AfterCalls(cfg, calls).blocked ==> Failures(AfterCalls(cfg, calls), p) == FailuresInARow(calls, p)
    ensures AfterCalls(cfg, calls).listeners == ListenersOf(calls)
  {
    if |calls| > 0 {
      CountsAgree(cfg, calls[..|calls|-1], p);
      BlockStep(cfg, calls, p);
    }
  }

  /** After any calls, p is blocked exactly when some call blocked it directly or
      was the failure that completed maxAttempts of them with no success between. */
  lemma {:induction false} BlockedExactly(cfg: LogConfig, calls: seq<LogCall>, p: Peer)
    ensures p in AfterCalls(cfg, calls).blocked <==> exists k :: TripsAt(cfg, calls, k, p)
  {
    if |calls| > 0 {
      var n := |calls| - 1;
      BlockedExactly(cfg, calls[..n], p);
      CountsAgree(cfg, calls[..n], p);
      BlockStep(cfg, calls, p);
      TripsInPrefix(cfg, calls, n, p);
      assert calls[..n+1] == calls;
      assert TripsAt(cfg, calls, n, p) == Trips(cfg, calls, p);
      if k :| TripsAt(cfg, calls[..n], k, p) {
        assert TripsAt(cfg, calls, k, p);
      }
      if k :| TripsAt(cfg, calls, k, p) && k != n {
        assert TripsAt(cfg, calls[..n], k, p);
      }
    }
  }

  /** Blocking is permanent. */
  lemma {:induction false} BlockedForever(cfg: LogConfig, calls: seq<LogCall>, more: seq<LogCall>, p: Peer)
    requires p in AfterCalls(cfg, calls).blocked
    ensures p in AfterCalls(cfg, calls + more).blocked
  {
    BlockedExactly(cfg, calls, p);
    var k :| TripsAt(cfg, calls, k, p);
    assert (calls + more)[..|calls|] == calls;
    TripsInPrefix(cfg, calls + more, |calls|, p);
    assert TripsAt(cfg, calls + more, k, p);
    BlockedExactly(cfg, calls + more, p);
  }

  /** Every listener registered when p is first blocked hears of it exactly once
      (a listener registered twice, twice), in order, and no one ever again. */
  lemma {:induction false} ListenersToldExactlyOnce(cfg: LogConfig, calls: seq<LogCall>, k: nat, p: Peer)
    requires TripsAt(cfg, calls, k, p)
    requires forall j :: j < k ==> !TripsAt(cfg, calls, j, p)
    ensures ToldAbout(AfterCalls(cfg, calls).notices, p) == ListenersOf(calls[..k])
  {
    var n := |calls| - 1;
    CountsAgree(cfg, calls[..n], p);
    BlockStep(cfg, calls, p);
    BlockedExactly(cfg, calls, p);
    BlockedExactly(cfg, calls[..n], p);
    TripsInPrefix(cfg, calls, n, p);
    if k == n {
      assert forall j :: TripsAt(cfg, calls[..n], j, p) ==> TripsAt(cfg, calls, j, p);
      NoNoticeYet(cfg, calls[..n], p);
    } else {
      assert TripsAt(cfg, calls[..n], k, p);
      ListenersToldExactlyOnce(cfg, calls[..n], k, p);
      assert calls[..n][..k] == calls[..k];
    }
  }

  lemma {:induction false} NoNoticeYet(cfg: LogConfig, calls: seq<LogCall>, p: Peer)
    requires p !in AfterCalls(cfg, calls).blocked
    ensures ToldAbout(AfterCalls(cfg, calls).notices, p) == []
  {
    if |calls| > 0 {
      CountsAgree(cfg, calls[..|calls|-1], p);
      BlockStep(cfg, calls, p);
      NoNoticeYet(cfg, calls[..|calls|-1], p);
    }
  }
}
