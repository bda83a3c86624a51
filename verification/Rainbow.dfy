/** protocol/resolution.py, TimeMemoryTable: rainbow tables over all (device, epoch) points. */
module Rainbow {
  import opened Terms
  import opened SessionLogs
  import opened CounterResolvers

  const TABLE_STRIDE: nat := 1_000_003

  /** What the chains depend on. `number` reads the first eight bytes of a digest
      as an integer; nothing is assumed about it. */
  datatype Space = Space(en: Enrolment, lifetime: nat, tau: nat, number: Pid -> nat)

  function Size(s: Space): nat {
    |s.en.peers| * s.lifetime
  }

  ghost predicate ValidSpace(s: Space) {
    ValidEnrolment(s.en) && |s.en.peers| >= 1 && s.lifetime >= 1
  }

  lemma SizePositive(s: Space)
    requires ValidSpace(s)
    ensures Size(s) >= 1
  {
    hide ValidEnrolment;
  }

  lemma MulLe(a: int, b: int, n: nat)
    ensures a <= b ==> a * n <= b * n
  {}

  lemma Quotient(n: nat, lifetime: nat, x: nat)
    requires lifetime >= 1 && x < n * lifetime
    ensures x / lifetime < n
  {
    MulLe(n, x / lifetime, lifetime);
  }

  /** Point x stands for this peer, by position, ... */
  function PeerIndex(s: Space, x: nat): (i: nat)
    requires ValidSpace(s) && x < Size(s)
    ensures i < |s.en.peers|
  {
    Quotient(|s.en.peers|, s.lifetime, x);
    x / s.lifetime
  }

  /** ... at this epoch. */
  function EpochOf(s: Space, x: nat): (e: nat)
    requires ValidSpace(s) && x < Size(s)
    ensures e < s.lifetime
  {
    x % s.lifetime
  }

  lemma Recompose(s: Space, x: nat)
    requires ValidSpace(s) && x < Size(s)
    ensures x == PeerIndex(s, x) * s.lifetime + EpochOf(s, x)
  {
    hide ValidEnrolment;
  }

  lemma Decompose(s: Space, i: nat, e: nat)
    requires ValidSpace(s) && i < |s.en.peers| && e < s.lifetime
    ensures var x := i * s.lifetime + e; x < Size(s) && PeerIndex(s, x) == i && EpochOf(s, x) == e
  {
    hide ValidEnrolment;
    var x := i * s.lifetime + e;
    MulLe(i + 1, |s.en.peers|, s.lifetime);
    Recompose(s, x);
    MulLe(i + 1, PeerIndex(s, x), s.lifetime);
    MulLe(PeerIndex(s, x) + 1, i, s.lifetime);
  }

  /** f(x): the pseudonym of that peer at that epoch. */
  function Point(s: Space, x: nat): Pid
    requires ValidSpace(s) && x < Size(s)
  {
    assert s.en.peers[PeerIndex(s, x)] in s.en.peers;
    H2(s.en.secret[s.en.peers[PeerIndex(s, x)]], EpochOf(s, x))
  }

  function Reduce(s: Space, pid: Pid, column: nat, table: nat): (x: nat)
    requires ValidSpace(s)
    ensures x < Size(s)
  {
    SizePositive(s);
    (s.number(pid) + column + table * TABLE_STRIDE) % Size(s)
  }

  /** Columns and tables shift the reduction: two of them agree on a pseudonym, on any, exactly
      when S divides the difference of column + 1000003 table. */
  lemma ReductionsDiffer(s: Space, pid: Pid, column: nat, table: nat, column': nat, table': nat)
    requires ValidSpace(s)
    ensures Reduce(s, pid, column, table) == Reduce(s, pid, column', table')
       <==> (column + table * 1_000_003 - column' - table' * 1_000_003) % Size(s) == 0
    ensures Reduce(s, pid, 0, 0) == s.number(pid) % Size(s)
  {
    SizePositive(s);
    hide ValidEnrolment;
    SameRemainder(s.number(pid) + column + table * 1_000_003, s.number(pid) + column' + table' * 1_000_003, Size(s));
  }

  lemma SameRemainder(a: nat, b: nat, n: nat)
    requires n >= 1
    ensures a % n == b % n <==> (a - b) % n == 0
  {
    var q := a / n - b / n;
    assert a - b == q * n + (a % n - b % n);
    if a % n == b % n {
      Multiple(q, n);
    } else {
      var d := (a - b) / n;
      assert a - b == d * n + (a - b) % n;
      MulLe(d + 1, q, n);
      MulLe(q + 1, d, n);
    }
  }

  lemma Multiple(q: int, n: nat)
    requires n >= 1
    ensures (q * n) % n == 0
  {
    var d := q * n / n;
    assert q * n == d * n + q * n % n;
    MulLe(d + 1, q, n);
    MulLe(q + 1, d, n);
  }

  /** x after n steps of a chain of `table`, the first of them in `column`. */
  function Chain(s: Space, table: nat, column: nat, x: nat, n: nat): (y: nat)
    requires ValidSpace(s) && x < Size(s)
    ensures y < Size(s)
    decreases n
  {
    if n == 0 then x else Chain(s, table, column + 1, Reduce(s, Point(s, x), column, table), n - 1)
  }

  lemma {:induction false} ChainSplit(s: Space, table: nat, column: nat, x: nat, m: nat, n: nat)
    requires ValidSpace(s) && x < Size(s)
    ensures Chain(s, table, column, x, m + n) == Chain(s, table, column + m, Chain(s, table, column, x, m), n)
    decreases m
  {
    hide ValidEnrolment, Point, Reduce, Size;
    if m > 0 {
      ChainSplit(s, table, column + 1, Reduce(s, Point(s, x), column, table), m - 1, n);
    }
  }

  /** Distinct points have distinct pseudonyms. */
  lemma PointInjective(s: Space, x: nat, y: nat)
    requires ValidSpace(s) && x < Size(s) && y < Size(s) && Point(s, x) == Point(s, y)
    ensures x == y
  {
    Recompose(s, x);
    Recompose(s, y);
    SamePeer(s.en, PeerIndex(s, x), PeerIndex(s, y));
  }

  lemma SamePeer(en: Enrolment, i: nat, j: nat)
    requires ValidEnrolment(en) && i < |en.peers| && j < |en.peers|
    requires en.peers[i] in en.secret && en.peers[j] in en.secret && en.secret[en.peers[i]] == en.secret[en.peers[j]]
    ensures i == j
  {}

  // ---- Stored tables ----------------------------------------------------------

  type Ends = map<nat, nat>

  /** The chains of the given starts, one kept per end point: the first. */
  function TableOf(s: Space, table: nat, starts: seq<nat>): Ends
    requires ValidSpace(s) && forall i :: 0 <= i < |starts| ==> starts[i] < Size(s)
  {
    if starts == [] then map[]
    else
      var before := TableOf(s, table, starts[..|starts|-1]);
      var end := Chain(s, table, 0, starts[|starts|-1], s.tau);
      if end in before then before else before[end := starts[|starts|-1]]
  }

  ghost predicate ChainsOf(s: Space, table: nat, ends: Ends)
    requires ValidSpace(s)
  {
    forall e :: e in ends ==> ends[e] < Size(s) && Chain(s, table, 0, ends[e], s.tau) == e
  }

  lemma {:induction false} TableHoldsChains(s: Space, table: nat, starts: seq<nat>)
    requires ValidSpace(s) && forall i :: 0 <= i < |starts| ==> starts[i] < Size(s)
    ensures ChainsOf(s, table, TableOf(s, table, starts))
  {
    if starts != [] {
      TableHoldsChains(s, table, starts[..|starts|-1]);
    }
  }

  ghost predicate ValidTables(s: Space, tables: seq<Ends>)
    requires ValidSpace(s)
  {
    forall t :: 0 <= t < |tables| ==> ChainsOf(s, t, tables[t])
  }

  /** x lies on the stored chain of `table` that ends in e, in some column below n. */
  ghost predicate OnChain(s: Space, table: nat, start: nat, x: nat, n: nat)
    requires ValidSpace(s) && start < Size(s)
  {
    exists c: nat :: c < n && x == Chain(s, table, 0, start, c)
  }

  ghost predicate CoveredIn(s: Space, table: nat, ends: Ends, x: nat)
    requires ValidSpace(s) && ChainsOf(s, table, ends)
  {
    exists e :: e in ends && OnChain(s, table, ends[e], x, s.tau)
  }

  /** The points coverage() collects. */
  ghost predicate Covered(s: Space, tables: seq<Ends>, x: nat)
    requires ValidSpace(s) && ValidTables(s, tables)
  {
    exists t :: 0 <= t < |tables| && CoveredIn(s, t, tables[t], x)
  }

  /** The ends of the chains of these starts, in order. */
  function EndsOf(s: Space, table: nat, starts: seq<nat>): (es: seq<nat>)
    requires ValidSpace(s) && (forall i :: 0 <= i < |starts| ==> starts[i] < Size(s))
    ensures |es| == |starts|
    ensures forall i :: 0 <= i < |starts| ==> es[i] == Chain(s, table, 0, starts[i], s.tau)
  {
    seq(|starts|, i requires 0 <= i < |starts| => Chain(s, table, 0, starts[i], s.tau))
  }

  /** No earlier start of the table leads to the same end. */
  predicate FirstAt(es: seq<nat>, i: nat)
    requires i < |es|
  {
    forall j :: 0 <= j < i ==> es[j] != es[i]
  }

  /** What attach has to leave behind: the ends of all chains and no other keys, each with
      the first start that leads to it. */
  ghost predicate KeepsFirst(es: seq<nat>, starts: seq<nat>, ends: Ends)
    requires |es| == |starts|
  {
    && (forall e :: e in ends <==> e in es)
    && (forall i :: 0 <= i < |es| && FirstAt(es, i) ==> es[i] in ends && ends[es[i]] == starts[i])
  }

  lemma OneMoreStart(es: seq<nat>, starts: seq<nat>, before: Ends)
    requires |es| == |starts| >= 1
    requires KeepsFirst(es[..|es|-1], starts[..|es|-1], before)
    ensures var end := es[|es|-1];
            KeepsFirst(es, starts, if end in before then before else before[end := starts[|es|-1]])
  {
    var n := |es| - 1;
    var end := es[n];
    var ends := if end in before then before else before[end := starts[n]];
    assert es == es[..n] + [end];
    forall i | 0 <= i < |es| && FirstAt(es, i) ensures es[i] in ends && ends[es[i]] == starts[i] {
      if i < n {
        assert FirstAt(es[..n], i);
        assert es[..n][i] == es[i] && starts[..n][i] == starts[i];
        assert es[i] in es[..n];
      } else {
        assert end !in es[..n];
      }
    }
  }

  lemma {:induction false} TableKeepsFirst(s: Space, table: nat, starts: seq<nat>)
    requires ValidSpace(s) && (forall i :: 0 <= i < |starts| ==> starts[i] < Size(s))
    ensures KeepsFirst(EndsOf(s, table, starts), starts, TableOf(s, table, starts))
  {
    hide ValidEnrolment, Size, Chain, KeepsFirst, EndsOf;
    if starts == [] {
      NothingKept();
    } else {
      var n := |starts| - 1;
      TableKeepsFirst(s, table, starts[..n]);
      assert EndsOf(s, table, starts[..n]) == EndsOf(s, table, starts)[..n];
      OneMoreStart(EndsOf(s, table, starts), starts, TableOf(s, table, starts[..n]));
    }
  }

  lemma NothingKept()
    ensures KeepsFirst([], [], map[])
  {}

  /** So the whole chain of a start that is first of its end is covered ... */
  lemma FirstChainsCovered(s: Space, tables: seq<Ends>, t: nat, starts: seq<nat>, i: nat, c: nat)
    requires ValidSpace(s) && ValidTables(s, tables) && t < |tables| && i < |starts| && c < s.tau
    requires forall j :: 0 <= j < |starts| ==> starts[j] < Size(s)
    ensures KeepsFirst(EndsOf(s, t, starts), starts, tables[t]) && FirstAt(EndsOf(s, t, starts), i) ==>
              Covered(s, tables, Chain(s, t, 0, starts[i], c))
  {
    hide ValidEnrolment, Size, Chain, FirstAt;
    if KeepsFirst(EndsOf(s, t, starts), starts, tables[t]) && FirstAt(EndsOf(s, t, starts), i) {
      var end := EndsOf(s, t, starts)[i];
      assert tables[t][end] == starts[i];
      assert OnChain(s, t, tables[t][end], Chain(s, t, 0, starts[i], c), s.tau);
      assert CoveredIn(s, t, tables[t], Chain(s, t, 0, starts[i], c));
    }
  }

  /** ... and the pseudonym of each of its points is found. */
  lemma FirstChainsFound(s: Space, tables: seq<Ends>, t: nat, starts: seq<nat>, i: nat, c: nat)
    requires ValidSpace(s) && ValidTables(s, tables) && t < |tables| && i < |starts| && c < s.tau
    requires forall j :: 0 <= j < |starts| ==> starts[j] < Size(s)
    ensures KeepsFirst(EndsOf(s, t, starts), starts, tables[t]) && FirstAt(EndsOf(s, t, starts), i) ==>
              var x := Chain(s, t, 0, starts[i], c); SearchTables(s, tables, Point(s, x), 0).found == Some(x)
  {
    FirstChainsCovered(s, tables, t, starts, i, c);
    LookupExact(s, tables, Point(s, Chain(s, t, 0, starts[i], c)), Chain(s, t, 0, starts[i], c));
    hide KeepsFirst, FirstAt, EndsOf;
  }

  // ---- The look-up, as the order of its cells ----------------------------------

  datatype Search = Search(found: Option<nat>, probes: nat, alarms: nat)

  function After(spent: nat, alarms: nat, rest: Search): Search {
    Search(rest.found, spent + rest.probes, alarms + rest.alarms)
  }

  /** End point of the chain the pseudonym would be on, were it in column c. */
  function WalkEnd(s: Space, table: nat, pid: Pid, c: nat): nat
    requires ValidSpace(s) && c < s.tau
  {
    Chain(s, table, c + 1, Reduce(s, pid, c, table), s.tau - 1 - c)
  }

  /** Columns n-1 down to 0 of one table. */
  function SearchColumns(s: Space, table: nat, ends: Ends, pid: Pid, n: nat): Search
    requires ValidSpace(s) && n <= s.tau
    requires forall e :: e in ends ==> ends[e] < Size(s)
  {
    if n == 0 then Search(None, 0, 0)
    else
      var z := WalkEnd(s, table, pid, n - 1);
      if z !in ends then After(s.tau - n, 0, SearchColumns(s, table, ends, pid, n - 1))
      else
        var x := Chain(s, table, 0, ends[z], n - 1);
        if Point(s, x) == pid then Search(Some(x), s.tau, 0)
        else After(s.tau, 1, SearchColumns(s, table, ends, pid, n - 1))
  }

  function SearchTables(s: Space, tables: seq<Ends>, pid: Pid, t: nat): Search
    requires ValidSpace(s) && t <= |tables|
    requires forall u, e :: t <= u < |tables| && e in tables[u] ==> tables[u][e] < Size(s)
    decreases |tables| - t
  {
    if t == |tables| then Search(None, 0, 0)
    else
      var here := SearchColumns(s, t, tables[t], pid, s.tau);
      if here.found.Some? then here
      else After(here.probes, here.alarms, SearchTables(s, tables, pid, t + 1))
  }

  lemma AfterNothing(rest: Search)
    ensures After(0, 0, rest) == rest
  {}

  lemma AfterTwice(a: nat, b: nat, c: nat, d: nat, rest: Search)
    ensures After(a, b, After(c, d, rest)) == After(a + c, b + d, rest)
  {}

  lemma AfterFound(a: nat, b: nat, r: Search)
    ensures After(a, b, r) == Search(r.found, a + r.probes, b + r.alarms)
  {}

  lemma SearchStep(s: Space, tables: seq<Ends>, pid: Pid, t: nat)
    requires ValidSpace(s) && t < |tables|
    requires forall u, e :: t <= u < |tables| && e in tables[u] ==> tables[u][e] < Size(s)
    ensures var here := SearchColumns(s, t, tables[t], pid, s.tau);
            SearchTables(s, tables, pid, t)
            == if here.found.Some? then here else After(here.probes, here.alarms, SearchTables(s, tables, pid, t + 1))
  {
    hide SearchColumns, After;
  }

  lemma SearchEnds(s: Space, tables: seq<Ends>, pid: Pid)
    requires ValidSpace(s)
    ensures SearchTables(s, tables, pid, |tables|) == Search(None, 0, 0)
  {}

  // ---- Exactness ---------------------------------------------------------------

  lemma {:induction false} ColumnsExact(s: Space, table: nat, ends: Ends, pid: Pid, n: nat)
    requires ValidSpace(s) && n <= s.tau && ChainsOf(s, table, ends)
    ensures var r := SearchColumns(s, table, ends, pid, n).found;
            && (r.Some? ==> r.value < Size(s) && Point(s, r.value) == pid && CoveredIn(s, table, ends, r.value))
            && (r.None? ==> forall e, c: nat :: e in ends && c < n ==> Point(s, Chain(s, table, 0, ends[e], c)) != pid)
  {
    hide ValidEnrolment, Point, Reduce, Size;
    if n > 0 {
      ColumnsExact(s, table, ends, pid, n - 1);
      var z := WalkEnd(s, table, pid, n - 1);
      if z in ends {
        assert OnChain(s, table, ends[z], Chain(s, table, 0, ends[z], n - 1), s.tau);
      }
      forall e | e in ends && Point(s, Chain(s, table, 0, ends[e], n - 1)) == pid ensures e == z {
        WalkMeetsChain(s, table, ends[e], n - 1);
      }
    }
  }

  /** From any point of a chain, reducing its pseudonym leads to the chain's end. */
  lemma WalkMeetsChain(s: Space, table: nat, start: nat, c: nat)
    requires ValidSpace(s) && start < Size(s) && c < s.tau
    ensures WalkEnd(s, table, Point(s, Chain(s, table, 0, start, c)), c) == Chain(s, table, 0, start, s.tau)
  {
    hide ValidEnrolment, Point, Reduce, Size;
    ChainSplit(s, table, 0, start, c, s.tau - c);
  }

  lemma {:induction false} TablesExact(s: Space, tables: seq<Ends>, pid: Pid, t: nat)
    requires ValidSpace(s) && ValidTables(s, tables) && t <= |tables|
    ensures var r := SearchTables(s, tables, pid, t).found;
            && (r.Some? ==> r.value < Size(s) && Point(s, r.value) == pid && Covered(s, tables, r.value))
            && (r.None? ==> forall u, x: nat :: t <= u < |tables| && x < Size(s) && CoveredIn(s, u, tables[u], x) ==>
                Point(s, x) != pid)
    decreases |tables| - t
  {
    hide ValidEnrolment, Point, Reduce, Size;
    if t < |tables| {
      ColumnsExact(s, t, tables[t], pid, s.tau);
      TablesExact(s, tables, pid, t + 1);
    }
  }

  /** The look-up answers x exactly when x is covered and its pseudonym is asked
      for, whatever chains were merged away and whatever false alarms it meets. */
  lemma LookupExact(s: Space, tables: seq<Ends>, pid: Pid, x: nat)
    requires ValidSpace(s) && ValidTables(s, tables)
    ensures SearchTables(s, tables, pid, 0).found == Some(x)
       <==> x < Size(s) && Point(s, x) == pid && Covered(s, tables, x)
  {
    TablesExact(s, tables, pid, 0);
    var r := SearchTables(s, tables, pid, 0).found;
    if x < Size(s) && Point(s, x) == pid && Covered(s, tables, x) && r.Some? {
      PointInjective(s, x, r.value);
    }
  }

  // ---- Cost ----------------------------------------------------------------------

  /** Whether the cell (table, c) raises a false alarm for the pseudonym. */
  predicate FalseAlarm(s: Space, table: nat, ends: Ends, pid: Pid, c: nat)
    requires ValidSpace(s) && c < s.tau
    requires forall e :: e in ends ==> ends[e] < Size(s)
  {
    var z := WalkEnd(s, table, pid, c);
    z in ends && Point(s, Chain(s, table, 0, ends[z], c)) != pid
  }

  /** column + 1, summed over the false alarms in columns below n. */
  function AlarmCost(s: Space, table: nat, ends: Ends, pid: Pid, n: nat): nat
    requires ValidSpace(s) && n <= s.tau
    requires forall e :: e in ends ==> ends[e] < Size(s)
  {
    if n == 0 then 0
    else AlarmCost(s, table, ends, pid, n - 1) + if FalseAlarm(s, table, ends, pid, n - 1) then n else 0
  }

  function AlarmCosts(s: Space, tables: seq<Ends>, pid: Pid, t: nat): nat
    requires ValidSpace(s) && t <= |tables|
    requires forall u, e :: t <= u < |tables| && e in tables[u] ==> tables[u][e] < Size(s)
    decreases |tables| - t
  {
    if t == |tables| then 0
    else AlarmCost(s, t, tables[t], pid, s.tau) + AlarmCosts(s, tables, pid, t + 1)
  }

  /** Twice the probes of walking columns n-1 .. 0 to their chain ends. */
  lemma {:induction false} UnresolvedColumns(s: Space, table: nat, ends: Ends, pid: Pid, n: nat)
    requires ValidSpace(s) && n <= s.tau
    requires forall e :: e in ends ==> ends[e] < Size(s)
    ensures SearchColumns(s, table, ends, pid, n).found.None? ==>
              2 * SearchColumns(s, table, ends, pid, n).probes
              == n * (2 * s.tau - n - 1) + 2 * AlarmCost(s, table, ends, pid, n)
  {
    hide ValidEnrolment, Point, Reduce, Size;
    if n > 0 {
      UnresolvedColumns(s, table, ends, pid, n - 1);
      Triangle(n, s.tau);
    }
  }

  /** How many of the columns below n raise a false alarm. */
  function AlarmCount(s: Space, table: nat, ends: Ends, pid: Pid, n: nat): nat
    requires ValidSpace(s) && n <= s.tau
    requires forall e :: e in ends ==> ends[e] < Size(s)
  {
    if n == 0 then 0
    else AlarmCount(s, table, ends, pid, n - 1) + if FalseAlarm(s, table, ends, pid, n - 1) then 1 else 0
  }

  lemma {:induction false} UnresolvedAlarms(s: Space, table: nat, ends: Ends, pid: Pid, n: nat)
    requires ValidSpace(s) && n <= s.tau
    requires forall e :: e in ends ==> ends[e] < Size(s)
    ensures SearchColumns(s, table, ends, pid, n).found.None? ==>
              SearchColumns(s, table, ends, pid, n).alarms == AlarmCount(s, table, ends, pid, n)
  {
    hide ValidEnrolment, Point, Reduce, Size;
    if n > 0 { UnresolvedAlarms(s, table, ends, pid, n - 1); }
  }

  /** The stored chain that the pseudonym would be on, were it in column c, does have it there. */
  predicate Hit(s: Space, table: nat, ends: Ends, pid: Pid, c: nat)
    requires ValidSpace(s) && c < s.tau
    requires forall e :: e in ends ==> ends[e] < Size(s)
  {
    var z := WalkEnd(s, table, pid, c);
    z in ends && Point(s, Chain(s, table, 0, ends[z], c)) == pid
  }

  /** A look-up that succeeds in a table does so in its last column c with a hit: it has paid
      for the walks of the later columns and their false alarms, and tau for the hit. */
  lemma {:induction false} ResolvedColumns(s: Space, table: nat, ends: Ends, pid: Pid, n: nat) returns (c: nat)
    requires ValidSpace(s) && n <= s.tau
    requires forall e :: e in ends ==> ends[e] < Size(s)
    ensures var r := SearchColumns(s, table, ends, pid, n);
            r.found.Some? ==>
            && c < n && Hit(s, table, ends, pid, c) && (forall k :: c < k < n ==> !Hit(s, table, ends, pid, k))
            && r.found == Some(Chain(s, table, 0, ends[WalkEnd(s, table, pid, c)], c))
            && r.alarms == AlarmCount(s, table, ends, pid, n) - AlarmCount(s, table, ends, pid, c + 1)
            && 2 * r.probes == n * (2 * s.tau - n - 1) - (c + 1) * (2 * s.tau - (c + 1) - 1) + 2 * s.tau
                               + 2 * (AlarmCost(s, table, ends, pid, n) - AlarmCost(s, table, ends, pid, c + 1))
  {
    hide ValidEnrolment, Point, Reduce, Size, WalkEnd;
    if n == 0 {
      c := 0;
    } else if Hit(s, table, ends, pid, n - 1) {
      c := n - 1;
    } else {
      c := ResolvedColumns(s, table, ends, pid, n - 1);
      Triangle(n, s.tau);
    }
  }

  /** ... after as many tables in which it failed. */
  lemma {:induction false} ResolvedTables(s: Space, tables: seq<Ends>, pid: Pid, t: nat) returns (u: nat)
    requires ValidSpace(s) && ValidTables(s, tables) && t <= |tables|
    requires SearchTables(s, tables, pid, t).found.Some?
    ensures t <= u < |tables| && (forall k :: t <= k < u ==> SearchColumns(s, k, tables[k], pid, s.tau).found.None?)
    ensures var r := SearchTables(s, tables, pid, t);
            var last := SearchColumns(s, u, tables[u], pid, s.tau);
            && r.found == last.found && last.found.Some?
            && 2 * r.probes == (u - t) * (s.tau * (s.tau - 1)) + 2 * last.probes
                               + 2 * (AlarmCosts(s, tables, pid, t) - AlarmCosts(s, tables, pid, u))
    decreases |tables| - t
  {
    hide ValidEnrolment, Point, Reduce, Size, SearchColumns, AlarmCost;
    if SearchColumns(s, t, tables[t], pid, s.tau).found.Some? {
      u := t;
    } else {
      u := ResolvedTables(s, tables, pid, t + 1);
      UnresolvedColumns(s, t, tables[t], pid, s.tau);
      OneMore(u - t, s.tau * (s.tau - 1));
    }
  }

  lemma Triangle(n: nat, tau: nat)
    requires n > 0
    ensures n * (2 * tau - n - 1) == (n - 1) * (2 * tau - (n - 1) - 1) + 2 * (tau - n)
  {}

  /** An unresolved look-up spends tables x tau(tau-1)/2 probes on walks, and
      column + 1 more on every false alarm. */
  lemma {:induction false} UnresolvedCost(s: Space, tables: seq<Ends>, pid: Pid, t: nat)
    requires ValidSpace(s) && ValidTables(s, tables) && t <= |tables|
    requires SearchTables(s, tables, pid, t).found.None?
    ensures 2 * SearchTables(s, tables, pid, t).probes
         == (|tables| - t) * (s.tau * (s.tau - 1)) + 2 * AlarmCosts(s, tables, pid, t)
    decreases |tables| - t
  {
    hide ValidEnrolment, Point, Reduce, Size;
    if t < |tables| {
      UnresolvedColumns(s, t, tables[t], pid, s.tau);
      UnresolvedCost(s, tables, pid, t + 1);
      OneMore(|tables| - t, s.tau * (s.tau - 1));
    }
  }

  lemma OneMore(k: nat, c: int)
    requires k > 0
    ensures k * c == c + (k - 1) * c
  {}

  lemma {:induction false} ColumnsBound(s: Space, table: nat, ends: Ends, pid: Pid, n: nat)
    requires ValidSpace(s) && n <= s.tau
    requires forall e :: e in ends ==> ends[e] < Size(s)
    ensures SearchColumns(s, table, ends, pid, n).probes <= n * s.tau
  {
    hide ValidEnrolment, Point, Reduce, Size;
    if n > 0 {
      ColumnsBound(s, table, ends, pid, n - 1);
      OneMore(n, s.tau);
      MulLe(0, n - 1, s.tau);
    }
  }

  /** No look-up spends more than tables x tau^2 probes. */
  lemma {:induction false} LookupBound(s: Space, tables: seq<Ends>, pid: Pid, t: nat)
    requires ValidSpace(s) && ValidTables(s, tables) && t <= |tables|
    ensures SearchTables(s, tables, pid, t).probes <= (|tables| - t) * (s.tau * s.tau)
    decreases |tables| - t
  {
    hide ValidEnrolment, Point, Reduce, Size;
    if t < |tables| {
      ColumnsBound(s, t, tables[t], pid, s.tau);
      LookupBound(s, tables, pid, t + 1);
      OneMore(|tables| - t, s.tau * s.tau);
      MulLe(0, |tables| - t - 1, s.tau * s.tau);
    }
  }

  // ---- The resolver ----------------------------------------------------------------

  /** The points the tables cover, as a set. */
  ghost function Coverage(s: Space, tables: seq<Ends>): set<nat>
    requires ValidSpace(s) && ValidTables(s, tables)
  {
    set x: nat | x < Size(s) && Covered(s, tables, x)
  }

  /** Position of a (device, epoch) pair, if it is a point at all. */
  ghost function PointOf(en: Enrolment, lifetime: nat, pid: Pid): (x: Option<nat>)
    requires ValidEnrolment(en)
  {
    if pid.H2? && OwnerIndex(en, pid.lam).Some? && pid.epoch < lifetime
    then Some(OwnerIndex(en, pid.lam).value * lifetime + pid.epoch) else None
  }

  ghost function RainbowResolution(en: Enrolment, lifetime: nat, covered: set<nat>, last: map<Peer, nat>,
                                   pid: Pid): Resolution
    requires ValidEnrolment(en)
  {
    var x := PointOf(en, lifetime, pid);
    if x.None? || x.value !in covered then Unknown
    else
      var p := Owner(en, pid.lam).value;
      if IsStale(last, p, pid.epoch) then Replayed(p, pid.epoch) else Found(p, pid.epoch)
  }

  /** The rainbow tables cover this peer's pseudonym of the epoch. */
  predicate PointCovered(en: Enrolment, lifetime: nat, covered: set<nat>, p: Peer, epoch: nat) {
    exists i :: 0 <= i < |en.peers| && en.peers[i] == p && i * lifetime + epoch in covered
  }

  lemma CoveredExactly(en: Enrolment, lifetime: nat, covered: set<nat>, p: Peer, epoch: nat)
    requires ValidEnrolment(en) && p in en.secret
    ensures OwnerIndex(en, en.secret[p]).Some?
    ensures PointCovered(en, lifetime, covered, p, epoch)
       <==> OwnerIndex(en, en.secret[p]).value * lifetime + epoch in covered
  {
    assert p in en.peers;
    var i :| 0 <= i < |en.peers| && en.peers[i] == p;
    assert OwnsAt(en, en.secret[p], i);
    hide ValidEnrolment;
    forall j | 0 <= j < |en.peers| && en.peers[j] == p ensures j == i {
      assert OwnsAt(en, en.secret[p], j);
    }
  }

  /** Resolution by tables, exactly: a pseudonym of an enrolled peer below the lifetime, and
      covered, is found above the last accepted epoch and called a replay up to it. */
  lemma RainbowExactly(en: Enrolment, lifetime: nat, covered: set<nat>, last: map<Peer, nat>, pid: Pid, p: Peer, e: nat)
    requires ValidEnrolment(en) && p in en.secret
    ensures var points := pid == H2(en.secret[p], e) && e < lifetime && PointCovered(en, lifetime, covered, p, e);
            && (RainbowResolution(en, lifetime, covered, last, pid) == Found(p, e) <==> points && Last(last, p) < e)
            && (RainbowResolution(en, lifetime, covered, last, pid) == Replayed(p, e) <==> points && e <= Last(last, p))
  {
    CoveredExactly(en, lifetime, covered, p, e);
    assert Owner(en, en.secret[p]) == Some(p);
    hide ValidEnrolment, PointCovered;
  }

  lemma PointIsPointOf(s: Space, x: nat)
    requires ValidSpace(s) && x < Size(s)
    ensures PointOf(s.en, s.lifetime, Point(s, x)) == Some(x)
    ensures Owner(s.en, Point(s, x).lam) == Some(s.en.peers[PeerIndex(s, x)])
  {
    Recompose(s, x);
    var i := PeerIndex(s, x);
    assert s.en.peers[i] in s.en.peers;
    assert OwnsAt(s.en, Point(s, x).lam, i);
  }

  lemma PointOfIsPoint(s: Space, pid: Pid)
    requires ValidSpace(s) && PointOf(s.en, s.lifetime, pid).Some?
    ensures var x := PointOf(s.en, s.lifetime, pid).value; x < Size(s) && Point(s, x) == pid
  {
    Decompose(s, OwnerIndex(s.en, pid.lam).value, pid.epoch);
  }

  /** Resolution is exact: a pseudonym resolves exactly when its point is covered. */
  lemma LookupIsResolution(s: Space, tables: seq<Ends>, pid: Pid)
    requires ValidSpace(s) && ValidTables(s, tables)
    ensures var found := SearchTables(s, tables, pid, 0).found;
            var x := PointOf(s.en, s.lifetime, pid);
            found == if x.Some? && x.value in Coverage(s, tables) then x else None
  {
    var found := SearchTables(s, tables, pid, 0).found;
    if found.Some? {
      LookupExact(s, tables, pid, found.value);
      PointIsPointOf(s, found.value);
    }
    if PointOf(s.en, s.lifetime, pid).Some? {
      PointOfIsPoint(s, pid);
      LookupExact(s, tables, pid, PointOf(s.en, s.lifetime, pid).value);
    }
  }

  /** min(chains_per_table, S): random.sample cannot draw more starts than points. */
  function ChainCount(s: Space, chainsPerTable: nat): nat {
    if chainsPerTable <= Size(s) then chainsPerTable else Size(s)
  }

  class TimeMemoryTable {
    const s: Space
    const log: SessionLog
    var tables: seq<Ends>
    var probes: nat
    var precomputeProbes: nat
    var falseAlarms: nat

    ghost predicate Valid()
      reads this
    {
      ValidSpace(s) && ValidTables(s, tables)
    }

    /** attach, with the starts random.sample drew for every table. */
    constructor (s: Space, log: SessionLog, starts: seq<seq<nat>>, ghost chainsPerTable: nat)
      requires ValidSpace(s)
      requires forall t :: 0 <= t < |starts| ==> |starts[t]| == ChainCount(s, chainsPerTable)
      requires forall t, i :: 0 <= t < |starts| && 0 <= i < |starts[t]| ==> starts[t][i] < Size(s)
      ensures this.s == s && this.log == log && Valid()
      ensures |tables| == |starts| && forall t :: 0 <= t < |starts| ==>
          KeepsFirst(EndsOf(s, t, starts[t]), starts[t], tables[t])
      ensures precomputeProbes == |starts| * (ChainCount(s, chainsPerTable) * s.tau) && probes == 0 && falseAlarms == 0
    {
      ghost var m := ChainCount(s, chainsPerTable);
      this.s, this.log := s, log;
      tables, probes, precomputeProbes, falseAlarms := [], 0, 0, 0;
      new;
      for t := 0 to |starts|
        invariant |tables| == t && probes == 0 && falseAlarms == 0
        invariant precomputeProbes == t * (m * s.tau)
        invariant forall u :: 0 <= u < t ==> tables[u] == TableOf(s, u, starts[u])
      {
        var ends := BuildTable(t, starts[t]);
        OneMore(t + 1, m * s.tau);
        tables := tables + [ends];
      }
      forall t | 0 <= t < |tables| ensures ChainsOf(s, t, tables[t]) {
        TableHoldsChains(s, t, starts[t]);
      }
      forall t | 0 <= t < |tables| ensures KeepsFirst(EndsOf(s, t, starts[t]), starts[t], tables[t]) {
        TableKeepsFirst(s, t, starts[t]);
      }
    }

    /** One table of attach: all its chains, keeping the first for every end point. */
    method BuildTable(table: nat, starts: seq<nat>) returns (ends: Ends)
      requires ValidSpace(s) && forall i :: 0 <= i < |starts| ==> starts[i] < Size(s)
      modifies `precomputeProbes
      ensures ends == TableOf(s, table, starts)
      ensures precomputeProbes == old(precomputeProbes) + |starts| * s.tau
    {
      hide Reduce, Point, Size;
      ends := map[];
      for i := 0 to |starts|
        invariant ends == TableOf(s, table, starts[..i])
        invariant precomputeProbes == old(precomputeProbes) + i * s.tau
      {
        var x: nat := starts[i];
        for column := 0 to s.tau
          invariant x < Size(s)
          invariant Chain(s, table, 0, starts[i], s.tau) == Chain(s, table, column, x, s.tau - column)
          invariant precomputeProbes == old(precomputeProbes) + i * s.tau + column
        {
          precomputeProbes := precomputeProbes + 1;
          x := Reduce(s, Point(s, x), column, table);
        }
        assert starts[..i+1][..i] == starts[..i];
        OneMore(i + 1, s.tau);
        if x !in ends {
          ends := ends[x := starts[i]];
        }
      }
      assert starts[..|starts|] == starts;
    }

    method Lookup(pid: Pid) returns (found: Option<nat>)
      requires Valid()
      modifies `probes, `falseAlarms
      ensures var r := SearchTables(s, tables, pid, 0);
              && found == r.found
              && probes == old(probes) + r.probes
              && falseAlarms == old(falseAlarms) + r.alarms
    {
      hide SearchTables, SearchColumns, After, Chain, Point, Reduce, Size, ValidEnrolment;
      AfterNothing(SearchTables(s, tables, pid, 0));
      for t := 0 to |tables|
        invariant probes >= old(probes) && falseAlarms >= old(falseAlarms)
        invariant SearchTables(s, tables, pid, 0)
               == After(probes - old(probes), falseAlarms - old(falseAlarms), SearchTables(s, tables, pid, t))
      {
        ghost var spent, alarms := probes - old(probes), falseAlarms - old(falseAlarms);
        ghost var here := SearchColumns(s, t, tables[t], pid, s.tau);
        SearchStep(s, tables, pid, t);
        found := LookupColumns(t, pid);
        if found.Some? {
          AfterFound(spent, alarms, here);
          return;
        }
        AfterTwice(spent, alarms, here.probes, here.alarms, SearchTables(s, tables, pid, t + 1));
      }
      SearchEnds(s, tables, pid);
      AfterFound(probes - old(probes), falseAlarms - old(falseAlarms), Search(None, 0, 0));
      found := None;
    }

    /** The columns of one table, last to first. */
    method LookupColumns(table: nat, pid: Pid) returns (found: Option<nat>)
      requires Valid() && table < |tables|
      modifies `probes, `falseAlarms
      ensures var r := SearchColumns(s, table, tables[table], pid, s.tau);
              && found == r.found
              && probes == old(probes) + r.probes
              && falseAlarms == old(falseAlarms) + r.alarms
    {
      hide Reduce, Point, Size;
      var ends := tables[table];
      for column := s.tau downto 0
        invariant probes >= old(probes) && falseAlarms >= old(falseAlarms)
        invariant SearchColumns(s, table, ends, pid, s.tau)
               == After(probes - old(probes), falseAlarms - old(falseAlarms),
                        SearchColumns(s, table, ends, pid, column))
      {
        var z := Walk(Reduce(s, pid, column, table), column + 1, s.tau, table);
        if z !in ends {
          continue;
        }
        var x := Walk(ends[z], 0, column, table);
        probes := probes + 1;
        if Point(s, x) == pid {
          return Some(x);
        }
        falseAlarms := falseAlarms + 1;
      }
      found := None;
    }

    /** A chain followed from column `from` up to column `to`. */
    method Walk(start: nat, from: nat, to: nat, table: nat) returns (z: nat)
      requires Valid() && start < Size(s) && from <= to
      modifies `probes
      ensures z == Chain(s, table, from, start, to - from)
      ensures probes == old(probes) + to - from
    {
      z := start;
      for j := from to to
        invariant z < Size(s)
        invariant Chain(s, table, from, start, to - from) == Chain(s, table, j, z, to - j)
        invariant probes == old(probes) + j - from
      {
        probes := probes + 1;
        z := Reduce(s, Point(s, z), j, table);
      }
    }

    method Resolve(pid: Pid) returns (r: Resolution)
      requires Valid()
      modifies `probes, `falseAlarms
      ensures r == RainbowResolution(s.en, s.lifetime, Coverage(s, tables), log.last, pid)
      ensures probes == old(probes) + SearchTables(s, tables, pid, 0).probes
    {
      hide Reduce, Size, PeerIndex, EpochOf, ValidEnrolment;
      var found := Lookup(pid);
      LookupIsResolution(s, tables, pid);
      if found.None? {
        return Unknown;
      }
      ghost var x := found.value;
      PointOfIsPoint(s, pid);
      PointIsPointOf(s, x);
      var peer, epoch := s.en.peers[PeerIndex(s, found.value)], EpochOf(s, found.value);
      r := if IsStale(log.last, peer, epoch) then Replayed(peer, epoch) else Found(peer, epoch);
    }

    method Accept(p: Peer, epoch: nat)
      modifies log`last
      ensures log.State() == AfterAccept(old(log.State()), p, epoch)
    {
      log.AcceptEpoch(p, epoch);
    }

    /** The set coverage() counts, leaving the probe counters alone. */
    method CoveredPoints() returns (covered: set<nat>)
      requires Valid()
      ensures covered == Coverage(s, tables)
    {
      hide ValidEnrolment, Size, OnChain, Chain, ChainsOf;
      covered := {};
      for t := 0 to |tables|
        invariant forall x: nat ::
                    x in covered <==> x < Size(s) && exists u :: 0 <= u < t && CoveredIn(s, u, tables[u], x)
      {
        var here := CoveredByTable(t);
        covered := covered + here;
      }
    }

    method CoveredByTable(t: nat) returns (covered: set<nat>)
      requires Valid() && t < |tables|
      ensures forall x: nat :: x in covered <==> x < Size(s) && CoveredIn(s, t, tables[t], x)
    {
      covered := {};
      var ends := tables[t];
      var remaining := ends.Keys;
      while remaining != {}
        invariant remaining <= ends.Keys
        invariant forall x: nat :: x in covered <==>
                    x < Size(s) && exists e :: e in ends && e !in remaining && OnChain(s, t, ends[e], x, s.tau)
      {
        var e :| e in remaining;
        var onChain := ChainPoints(t, ends[e]);
        covered := covered + onChain;
        remaining := remaining - {e};
      }
    }

    method ChainPoints(t: nat, start: nat) returns (points: set<nat>)
      requires Valid() && start < Size(s)
      ensures forall x: nat :: x in points <==> x < Size(s) && OnChain(s, t, start, x, s.tau)
    {
      points := {};
      var x := start;
      for column := 0 to s.tau
        invariant x == Chain(s, t, 0, start, column)
        invariant forall y: nat :: y in points <==> y < Size(s) && OnChain(s, t, start, y, column)
      {
        points := points + {x};
        ChainSplit(s, t, 0, start, column, 1);
        x := Reduce(s, Point(s, x), column, t);
      }
    }
  }
}
