/** evaluation/resolution/rfid_schemes.py, KeyTree: a balanced tree of keys whose
    leaf i is reached along the base-delta digits of i. */
module KeyTrees {
  import opened Terms

  type Node = seq<nat>

  /** Each node's key is a hash of the node, each tag a hash of key and r. */
  datatype NodeKey = NodeKey(node: Node)
  datatype Tag = Hash(key: NodeKey, r: int) | RawTag(tag: int)

  datatype Outcome = NoMatch | Match(peer: Peer) | IndexError

  // ---- Digits ----------------------------------------------------------------

  function Pow(b: nat, k: nat): nat {
    if k == 0 then 1 else b * Pow(b, k - 1)
  }

  /** The d low digits of i, most significant first. */
  function Path(delta: nat, i: nat, d: nat): (node: Node)
    requires delta >= 2
    ensures |node| == d && Digits(delta, node)
  {
    if d == 0 then [] else Path(delta, i / delta, d - 1) + [i % delta]
  }

  predicate Digits(delta: nat, node: Node) {
    forall k :: 0 <= k < |node| ==> node[k] < delta
  }

  /** The number a digit list stands for. */
  function Index(delta: nat, node: Node): nat {
    if node == [] then 0 else Index(delta, node[..|node|-1]) * delta + node[|node|-1]
  }

  /** i without its k low digits. */
  function Cut(delta: nat, i: nat, k: nat): nat
    requires delta >= 2
  {
    if k == 0 then i else Cut(delta, i, k - 1) / delta
  }

  lemma MulMono(a: int, b: int, n: nat)
    ensures a <= b ==> a * n <= b * n
  {}

  lemma DivMod(i: nat, n: nat)
    requires n >= 1
    ensures i == (i / n) * n + i % n
    ensures i / n <= i
  {
    MulMono(1, n, i / n);
  }

  lemma DivSmall(i: nat, delta: nat, p: nat)
    requires delta >= 2 && i < delta * p
    ensures i / delta < p
  {
    MulMono(p, i / delta, delta);
  }

  /** Quotient and remainder are determined by the number they make up. */
  lemma DivUnique(a: nat, x: nat, b: nat, y: nat, n: nat)
    requires x < n && y < n && a * n + x == b * n + y
    ensures a == b && x == y
  {
    MulMono(a + 1, b, n);
    MulMono(b + 1, a, n);
  }

  lemma DivBy(i: nat, q: nat, rest: nat, n: nat)
    requires rest < n && i == q * n + rest
    ensures i / n == q
  {
    DivMod(i, n);
    DivUnique(q, rest, i / n, i % n, n);
  }

  lemma IndexOfLast(delta: nat, node: Node, x: nat)
    ensures Index(delta, node + [x]) == Index(delta, node) * delta + x
  {
    assert (node + [x])[..|node|] == node;
  }

  lemma PathLast(delta: nat, i: nat, d: nat)
    requires delta >= 2 && d > 0
    ensures Path(delta, i, d) == Path(delta, i / delta, d - 1) + [i % delta]
  {}

  lemma PowLast(delta: nat, i: nat, d: nat)
    requires delta >= 2 && d > 0 && i < Pow(delta, d)
    ensures i / delta < Pow(delta, d - 1)
  {
    DivSmall(i, delta, Pow(delta, d - 1));
  }

  lemma IndexOfRoot(delta: nat, i: nat)
    requires delta >= 2 && i < Pow(delta, 0)
    ensures Index(delta, Path(delta, i, 0)) == i
  {}

  lemma {:induction false} IndexOfPath(delta: nat, i: nat, d: nat)
    requires delta >= 2 && i < Pow(delta, d)
    ensures Index(delta, Path(delta, i, d)) == i
  {
    hide *;
    if d == 0 {
      IndexOfRoot(delta, i);
    } else {
      PowLast(delta, i, d);
      IndexOfPath(delta, i / delta, d - 1);
      PathLast(delta, i, d);
      IndexOfLast(delta, Path(delta, i / delta, d - 1), i % delta);
      DivMod(i, delta);
    }
  }

  /** Reading the digits back: a prefix of the path of i stands for i with the
      other digits cut off. */
  lemma {:induction false} IndexOfPrefix(delta: nat, i: nat, d: nat, l: nat)
    requires delta >= 2 && l <= d && i < Pow(delta, d)
    ensures Index(delta, Path(delta, i, d)[..l]) == Cut(delta, i, d - l)
    decreases d
  {
    if l == d {
      hide Pow, Path, Index;
      IndexOfPath(delta, i, d);
      assert Path(delta, i, d)[..d] == Path(delta, i, d);
    } else {
      DivSmall(i, delta, Pow(delta, d - 1));
      assert Path(delta, i, d)[..l] == Path(delta, i / delta, d - 1)[..l];
      hide Pow, Path, Index, Cut;
      IndexOfPrefix(delta, i / delta, d - 1, l);
      CutHead(delta, i, d - l);
    }
  }

  lemma {:induction false} CutHead(delta: nat, i: nat, k: nat)
    requires delta >= 2 && k > 0
    ensures Cut(delta, i, k) == Cut(delta, i / delta, k - 1)
  {
    if k > 1 { CutHead(delta, i, k - 1); }
  }

  /** Digit lists of one length are told apart by their index. */
  lemma {:induction false} IndexInjective(delta: nat, a: Node, b: Node)
    requires |a| == |b| && Digits(delta, a) && Digits(delta, b)
    requires Index(delta, a) == Index(delta, b)
    ensures a == b
  {
    if a != [] {
      var m := |a| - 1;
      DivUnique(Index(delta, a[..m]), a[m], Index(delta, b[..m]), b[m], delta);
      IndexInjective(delta, a[..m], b[..m]);
      assert a == a[..m] + [a[m]] && b == b[..m] + [b[m]];
    }
  }

  lemma DivStep(x: nat, y: nat, delta: nat)
    requires delta >= 2 && x <= y <= x + 1
    ensures x / delta <= y / delta <= x / delta + 1
  {
    DivMod(x, delta);
    DivMod(y, delta);
    MulMono(x / delta + 2, y / delta, delta);
    MulMono(y / delta + 1, x / delta, delta);
  }

  lemma {:induction false} CutStep(delta: nat, i: nat, k: nat)
    requires delta >= 2
    ensures Cut(delta, i, k) <= Cut(delta, i + 1, k) <= Cut(delta, i, k) + 1
  {
    if k > 0 {
      CutStep(delta, i, k - 1);
      DivStep(Cut(delta, i, k - 1), Cut(delta, i + 1, k - 1), delta);
    }
  }

  lemma {:induction false} CutAtMost(delta: nat, i: nat, k: nat)
    requires delta >= 2
    ensures Cut(delta, i, k) <= i
  {
    if k > 0 {
      CutAtMost(delta, i, k - 1);
      DivMod(Cut(delta, i, k - 1), delta);
    }
  }

  lemma {:induction false} CutBelow(delta: nat, i: nat, k: nat, d: nat)
    requires delta >= 2 && k <= d && i < Pow(delta, d)
    ensures Cut(delta, i, k) < Pow(delta, d - k)
  {
    if k > 0 {
      CutBelow(delta, i, k - 1, d);
      DivSmall(Cut(delta, i, k - 1), delta, Pow(delta, d - k));
    }
  }

  /** Distinct values left when the k low digits of 0 .. m-1 are cut off. */
  function Count(delta: nat, m: nat, k: nat): nat
    requires delta >= 2
  {
    if m == 0 then 0 else Cut(delta, m - 1, k) + 1
  }

  lemma Expand(q: nat, delta: nat, x: nat, p: nat)
    ensures (q * delta + x) * p == q * (delta * p) + x * p
  {
    assert (q * delta) * p == q * (delta * p);
  }

  lemma BelowProduct(x: nat, delta: nat, p: nat, rest: nat)
    requires x < delta && rest < p
    ensures x * p + rest < delta * p
  {
    MulMono(x + 1, delta, p);
  }

  lemma DivTwice(i: nat, p: nat, delta: nat)
    requires p >= 1 && delta >= 2
    ensures delta * p >= 1 && (i / p) / delta == i / (delta * p)
  {
    var q, x := (i / p) / delta, (i / p) % delta;
    DivMod(i / p, delta);
    DivMod(i, p);
    MulMono(1, delta, p);
    Expand(q, delta, x, p);
    BelowProduct(x, delta, p, i % p);
    DivBy(i, q, x * p + i % p, delta * p);
  }

  lemma {:induction false} PowPositive(b: nat, k: nat)
    requires b >= 1
    ensures Pow(b, k) >= 1
  {
    if k > 0 { PowPositive(b, k - 1); }
  }

  lemma {:induction false} CutIsDivision(delta: nat, i: nat, k: nat)
    requires delta >= 2
    ensures Pow(delta, k) >= 1 && Cut(delta, i, k) == i / Pow(delta, k)
  {
    PowPositive(delta, k);
    if k > 0 {
      CutIsDivision(delta, i, k - 1);
      DivTwice(i, Pow(delta, k - 1), delta);
    }
  }

  /** ceil(a / b). */
  function CeilDiv(a: nat, b: nat): nat
    requires b >= 1
  {
    (a + b - 1) / b
  }

  lemma CeilFromBelow(a: nat, b: nat)
    requires b >= 1
    ensures CeilDiv(a, b) == if a == 0 then 0 else (a - 1) / b + 1
  {
    if a == 0 {
      DivBy(b - 1, 0, b - 1, b);
    } else {
      DivMod(a - 1, b);
      DivBy(a + b - 1, (a - 1) / b + 1, (a - 1) % b, b);
    }
  }

  lemma CountIsCeil(delta: nat, m: nat, k: nat)
    requires delta >= 2
    ensures Pow(delta, k) >= 1 && Count(delta, m, k) == CeilDiv(m, Pow(delta, k))
  {
    PowPositive(delta, k);
    CeilFromBelow(m, Pow(delta, k));
    if m > 0 { CutIsDivision(delta, m - 1, k); }
  }

  // ---- What the constructor builds -------------------------------------------

  /** cnt[l] nodes on level l: those standing for 0 .. cnt[l]-1. */
  predicate InTree(delta: nat, cnt: seq<nat>, node: Node) {
    1 <= |node| < |cnt| && Digits(delta, node) && Index(delta, node) < cnt[|node|]
  }

  function Clamp(x: int, delta: nat): nat {
    if x < 0 then 0 else if x > delta then delta else x
  }

  function ChildCount(delta: nat, cnt: seq<nat>, node: Node): nat {
    if |node| + 1 < |cnt| && Digits(delta, node)
    then Clamp(cnt[|node|+1] - Index(delta, node) * delta, delta)
    else 0
  }

  function Iota(k: nat): seq<nat> {
    seq(k, i => i)
  }

  function ChildList(children: map<Node, seq<nat>>, node: Node): seq<nat> {
    if node in children then children[node] else []
  }

  ghost predicate TreeOf(delta: nat, cnt: seq<nat>, key: map<Node, NodeKey>, children: map<Node, seq<nat>>) {
    && (forall node :: node in key <==> InTree(delta, cnt, node))
    && (forall node :: node in key ==> key[node] == NodeKey(node))
    && (forall node :: ChildList(children, node) == Iota(ChildCount(delta, cnt, node)))
  }

  lemma ClampElsewhere(u: nat, x: nat, w: nat, delta: nat)
    requires x < delta && u != w
    ensures Clamp(u * delta + x + 1 - w * delta, delta) == Clamp(u * delta + x - w * delta, delta)
  {
    MulMono(w + 1, u, delta);
    MulMono(u + 1, w, delta);
  }

  /** Adding the next node of a level keeps every child list 0, 1, .., k-1. */
  lemma OtherParents(delta: nat, cnt: seq<nat>, node: Node, parent: Node)
    requires 1 <= |node| < |cnt| && Digits(delta, node) && Index(delta, node) == cnt[|node|]
    requires parent != node[..|node|-1]
    ensures ChildCount(delta, cnt[|node| := cnt[|node|] + 1], parent) == ChildCount(delta, cnt, parent)
  {
    var m := |node| - 1;
    var u, w := Index(delta, node[..m]), Index(delta, parent);
    if |parent| == m && Digits(delta, parent) {
      if w == u { IndexInjective(delta, parent, node[..m]); }
      assert cnt[|node|] == u * delta + node[m];
      hide Index, Clamp;
      ClampElsewhere(u, node[m], w, delta);
    }
  }

  lemma OwnParent(delta: nat, cnt: seq<nat>, node: Node)
    requires 1 <= |node| < |cnt| && Digits(delta, node) && Index(delta, node) == cnt[|node|]
    ensures ChildCount(delta, cnt, node[..|node|-1]) == node[|node|-1]
    ensures ChildCount(delta, cnt[|node| := cnt[|node|] + 1], node[..|node|-1]) == node[|node|-1] + 1
  {}

  lemma SameLevel(delta: nat, cnt: seq<nat>, node: Node, other: Node)
    requires 1 <= |node| < |cnt| && Digits(delta, node) && Index(delta, node) == cnt[|node|]
    ensures InTree(delta, cnt[|node| := cnt[|node|] + 1], other) <==> InTree(delta, cnt, other) || other == node
  {
    if |other| == |node| && Digits(delta, other) && Index(delta, other) == Index(delta, node) {
      IndexInjective(delta, other, node);
    }
  }

  lemma AddNode(delta: nat, cnt: seq<nat>, key: map<Node, NodeKey>, children: map<Node, seq<nat>>, node: Node)
    requires TreeOf(delta, cnt, key, children)
    requires 1 <= |node| < |cnt| && Digits(delta, node) && Index(delta, node) == cnt[|node|]
    ensures var parent := node[..|node|-1];
            TreeOf(delta, cnt[|node| := cnt[|node|] + 1], key[node := NodeKey(node)],
                   children[parent := ChildList(children, parent) + [node[|node|-1]]])
  {
    var more := cnt[|node| := cnt[|node|] + 1];
    var parent := node[..|node|-1];
    var kids := children[parent := ChildList(children, parent) + [node[|node|-1]]];
    hide InTree, ChildCount;
    forall other: Node ensures InTree(delta, more, other) <==> InTree(delta, cnt, other) || other == node {
      SameLevel(delta, cnt, node, other);
    }
    forall other: Node ensures ChildList(kids, other) == Iota(ChildCount(delta, more, other)) {
      if other == parent {
        OwnParent(delta, cnt, node);
      } else {
        OtherParents(delta, cnt, node, other);
      }
    }
  }

  /** Level counts once the devices 0 .. m-1 are in. */
  function Counts(delta: nat, depth: nat, m: nat): (cnt: seq<nat>)
    requires delta >= 2
    ensures |cnt| == depth + 1
  {
    seq(depth + 1, l requires 0 <= l <= depth => Count(delta, m, depth - l))
  }

  // ---- What a list of tags resolves to ---------------------------------------

  function MatchedChild(delta: nat, cnt: seq<nat>, node: Node, r: int, tag: Tag): Option<nat> {
    if tag.Hash? && tag.r == r && |tag.key.node| == |node| + 1 && tag.key.node[..|node|] == node
       && tag.key.node[|node|] < ChildCount(delta, cnt, node)
    then Some(tag.key.node[|node|]) else None
  }

  /** The node reached from `node` by the tags, if any. */
  function Descend(delta: nat, cnt: seq<nat>, node: Node, r: int, tags: seq<Tag>): Option<Node>
    decreases |tags|
  {
    if tags == [] then Some(node)
    else
      var child := MatchedChild(delta, cnt, node, r, tags[0]);
      if child.None? then None else Descend(delta, cnt, node + [child.value], r, tags[1..])
  }

  function DescendCost(delta: nat, cnt: seq<nat>, node: Node, r: int, tags: seq<Tag>): nat
    decreases |tags|
  {
    if tags == [] then 0
    else
      var child := MatchedChild(delta, cnt, node, r, tags[0]);
      if child.None? then ChildCount(delta, cnt, node)
      else child.value + 1 + DescendCost(delta, cnt, node + [child.value], r, tags[1..])
  }

  function TagsOf(node: Node, r: int): seq<Tag> {
    seq(|node|, l requires 0 <= l < |node| => Hash(NodeKey(node[..l+1]), r))
  }

  lemma EmptyTree(delta: nat, depth: nat)
    requires delta >= 2
    ensures TreeOf(delta, Counts(delta, depth, 0), map[], map[])
  {
    var cnt := Counts(delta, depth, 0);
    forall l | 0 <= l < |cnt| ensures cnt[l] == 0 {
      assert cnt[l] == Count(delta, 0, depth - l);
    }
    forall node: Node
      ensures ChildCount(delta, cnt, node) == 0
      ensures !InTree(delta, cnt, node)
    {
      MulMono(0, Index(delta, node), delta);
    }
  }

  /** The root is no entry of the tree, so its count does not matter. */
  lemma SameTree(delta: nat, a: seq<nat>, b: seq<nat>, key: map<Node, NodeKey>, children: map<Node, seq<nat>>)
    requires TreeOf(delta, a, key, children)
    requires |a| == |b| && forall l :: 1 <= l < |a| ==> a[l] == b[l]
    ensures TreeOf(delta, b, key, children)
  {
    forall node: Node
      ensures ChildCount(delta, a, node) == ChildCount(delta, b, node)
      ensures InTree(delta, a, node) == InTree(delta, b, node)
    {}
  }

  function Reversed(s: seq<nat>): (r: seq<nat>)
    ensures |r| == |s|
  {
    if s == [] then [] else [s[|s|-1]] + Reversed(s[..|s|-1])
  }

  /** A node of the tree is among the children its parent lists. */
  lemma ListedByParent(delta: nat, cnt: seq<nat>, node: Node)
    requires InTree(delta, cnt, node)
    ensures node[|node|-1] < ChildCount(delta, cnt, node[..|node|-1])
  {
    hide Index;
    var m := |node| - 1;
    assert node == node[..m] + [node[m]];
    IndexOfLast(delta, node[..m], node[m]);
  }

  /** Level by level: device i's node is in the tree, as a child its parent lists. */
  lemma PathInTree(delta: nat, depth: nat, n: nat, i: nat, level: nat)
    requires delta >= 2 && i < n <= Pow(delta, depth) && 1 <= level <= depth
    ensures var path := Path(delta, i, depth);
            && InTree(delta, Counts(delta, depth, n), path[..level])
            && path[level-1] < ChildCount(delta, Counts(delta, depth, n), path[..level-1])
  {
    hide Pow, Path, Index, Cut, ChildCount;
    var node := Path(delta, i, depth)[..level];
    PathDigits(delta, i, depth);
    IndexOfPrefix(delta, i, depth, level);
    CutMonotone(delta, i, n - 1, depth - level);
    assert node[..level-1] == Path(delta, i, depth)[..level-1];
    assert Digits(delta, node) && Counts(delta, depth, n)[level] == Count(delta, n, depth - level);
    ListedByParent(delta, Counts(delta, depth, n), node);
  }

  lemma {:induction false} PathDigits(delta: nat, i: nat, d: nat)
    requires delta >= 2
    ensures Digits(delta, Path(delta, i, d))
  {
    if d > 0 { PathDigits(delta, i / delta, d - 1); }
  }

  lemma {:induction false} CutMonotone(delta: nat, i: nat, j: nat, k: nat)
    requires delta >= 2 && i <= j
    ensures Cut(delta, i, k) <= Cut(delta, j, k)
    decreases j - i
  {
    if i < j {
      CutStep(delta, i, k);
      CutMonotone(delta, i + 1, j, k);
    }
  }

  lemma ChildInTree(delta: nat, cnt: seq<nat>, node: Node, c: nat)
    requires c < ChildCount(delta, cnt, node)
    ensures InTree(delta, cnt, node + [c])
  {
    assert (node + [c])[..|node|] == node;
  }

  class KeyTree {
    const peers: seq<Peer>
    const delta: nat
    const depth: nat
    var probes: nat
    var key: map<Node, NodeKey>
    var children: map<Node, seq<nat>>

    ghost predicate Valid()
      reads this
    {
      && delta >= 2 && depth >= 1 && |peers| <= Pow(delta, depth)
      && TreeOf(delta, Counts(delta, depth, |peers|), key, children)
    }

    constructor (peers: seq<Peer>, delta: nat, depth: nat)
      requires delta >= 2 && depth >= 1 && |peers| <= Pow(delta, depth)
      ensures this.peers == peers && this.delta == delta && this.depth == depth
      ensures Valid() && probes == 0
    {
      this.peers, this.delta, this.depth := peers, delta, depth;
      probes, key, children := 0, map[], map[];
      new;
      ghost var cnt := Counts(delta, depth, 0);
      EmptyTree(delta, depth);
      for i := 0 to |peers|
        invariant probes == 0
        invariant cnt == Counts(delta, depth, i)
        invariant TreeOf(delta, cnt, key, children)
      {
        cnt := AddDevice(i, cnt);
      }
    }

    /** One round of the constructor's outer loop. */
    method AddDevice(i: nat, ghost cnt: seq<nat>) returns (ghost next: seq<nat>)
      requires delta >= 2 && i < Pow(delta, depth)
      requires cnt == Counts(delta, depth, i) && TreeOf(delta, cnt, key, children)
      modifies `key, `children
      ensures next == Counts(delta, depth, i + 1) && TreeOf(delta, next, key, children)
    {
      hide TreeOf;
      var path := PathOf(i);
      next := cnt;
      PathDigits(delta, i, depth);
      for level := 1 to depth + 1
        invariant |next| == depth + 1
        invariant forall l :: 0 <= l <= depth ==>
                    next[l] == Count(delta, if 1 <= l < level then i + 1 else i, depth - l)
        invariant TreeOf(delta, next, key, children)
      {
        var node := path[..level];
        NodeIsNewIff(delta, depth, i, level);
        KeyKnown(delta, next, key, children, node);
        if node !in key {
          AddNode(delta, next, key, children, node);
          var parent := node[..level-1];
          key := key[node := NodeKey(node)];
          children := children[parent := ChildList(children, parent) + [node[level-1]]];
          next := next[level := next[level] + 1];
        }
      }
      SameTree(delta, next, Counts(delta, depth, i + 1), key, children);
      next := Counts(delta, depth, i + 1);
    }

    method PathOf(i: nat) returns (path: Node)
      requires delta >= 2
      ensures path == Path(delta, i, depth)
    {
      var digits: seq<nat>, rest: nat := [], i;
      for k := 0 to depth
        invariant |digits| == k
        invariant Path(delta, i, depth) == Path(delta, rest, depth - k) + Reversed(digits)
      {
        assert (digits + [rest % delta])[..k] == digits;
        digits := digits + [rest % delta];
        rest := rest / delta;
      }
      path := Reversed(digits);
    }

    method DeviceMessage(i: nat, r: int) returns (tags: seq<Tag>)
      requires Valid() && i < |peers|
      ensures tags == TagsOf(Path(delta, i, depth), r)
    {
      var path := PathOf(i);
      tags := [];
      for level := 1 to depth + 1
        invariant tags == TagsOf(path, r)[..level - 1]
      {
        PathInTree(delta, depth, |peers|, i, level);
        tags := tags + [Hash(key[path[..level]], r)];
      }
    }

    ghost function OutcomeOf(r: int, tags: seq<Tag>): Outcome
      requires delta >= 2
    {
      match Descend(delta, Counts(delta, depth, |peers|), [], r, tags)
      case None => NoMatch
      case Some(node) => if Index(delta, node) < |peers| then Match(peers[Index(delta, node)]) else IndexError
    }

    method Resolve(r: int, tags: seq<Tag>) returns (out: Outcome)
      requires Valid()
      modifies `probes
      ensures out == OutcomeOf(r, tags)
      ensures probes == old(probes) + DescendCost(delta, Counts(delta, depth, |peers|), [], r, tags)
    {
      ghost var cnt := Counts(delta, depth, |peers|);
      var node: Node := [];
      assert tags[0..] == tags;
      for t := 0 to |tags|
        invariant Descend(delta, cnt, [], r, tags) == Descend(delta, cnt, node, r, tags[t..])
        invariant old(probes) + DescendCost(delta, cnt, [], r, tags)
               == probes + DescendCost(delta, cnt, node, r, tags[t..])
      {
        assert tags[t..][0] == tags[t] && tags[t..][1..] == tags[t+1..];
        var child := ScanChildren(node, r, tags[t]);
        if child.None? {
          return NoMatch;
        }
        node := node + [child.value];
      }
      var index := 0;
      for k := 0 to |node|
        invariant index == Index(delta, node[..k])
      {
        assert node[..k+1][..k] == node[..k];
        index := index * delta + node[k];
      }
      assert node[..|node|] == node;
      out := if index < |peers| then Match(peers[index]) else IndexError;
    }

    /** The inner loop of resolve: the first child whose tag agrees. */
    method ScanChildren(node: Node, r: int, tag: Tag) returns (child: Option<nat>)
      requires Valid()
      modifies `probes
      ensures child == MatchedChild(delta, Counts(delta, depth, |peers|), node, r, tag)
      ensures probes == old(probes) + if child.Some? then child.value + 1
                                      else ChildCount(delta, Counts(delta, depth, |peers|), node)
    {
      hide TreeOf, Index, Pow, Path, Count, Digits, Counts, ChildCount, InTree, ChildList;
      ghost var cnt := Counts(delta, depth, |peers|);
      var kids := ChildList(children, node);
      ChildrenKnown(delta, cnt, key, children, node);
      for c := 0 to |kids|
        invariant probes == old(probes) + c
        invariant MatchedChild(delta, cnt, node, r, tag).Some? ==> MatchedChild(delta, cnt, node, r, tag).value >= c
      {
        probes := probes + 1;
        if Hash(key[node + [kids[c]]], r) == tag {
          return Some(kids[c]);
        }
      }
      child := None;
    }
  }

  lemma ChildrenKnown(delta: nat, cnt: seq<nat>, key: map<Node, NodeKey>, children: map<Node, seq<nat>>, node: Node)
    requires TreeOf(delta, cnt, key, children)
    ensures ChildList(children, node) == Iota(ChildCount(delta, cnt, node))
    ensures forall c: nat :: c < ChildCount(delta, cnt, node) ==>
              node + [c] in key && key[node + [c]] == NodeKey(node + [c])
  {
    hide Index;
    forall c: nat | c < ChildCount(delta, cnt, node) ensures node + [c] in key {
      ChildInTree(delta, cnt, node, c);
    }
  }

  lemma NodeIsNewIff(delta: nat, depth: nat, i: nat, level: nat)
    requires delta >= 2 && i < Pow(delta, depth) && 1 <= level <= depth
    ensures var v := Index(delta, Path(delta, i, depth)[..level]);
            v <= Count(delta, i, depth - level) <= v + 1 == Count(delta, i + 1, depth - level)
  {
    hide Index, Path, Pow, Cut;
    IndexOfPrefix(delta, i, depth, level);
    if i > 0 { CutStep(delta, i - 1, depth - level); } else { CutAtMost(delta, 0, depth - level); }
  }

  lemma KeyKnown(delta: nat, cnt: seq<nat>, key: map<Node, NodeKey>, children: map<Node, seq<nat>>, node: Node)
    requires TreeOf(delta, cnt, key, children)
    ensures node in key <==> InTree(delta, cnt, node)
  {}

  // ---- Theorems ----------------------------------------------------------------

  function DigitCost(digits: seq<nat>): nat {
    if digits == [] then 0 else digits[0] + 1 + DigitCost(digits[1..])
  }

  lemma {:induction false} DescendFrom(delta: nat, depth: nat, n: nat, i: nat, r: int, l: nat)
    requires delta >= 2 && i < n <= Pow(delta, depth) && l <= depth
    ensures var path, cnt := Path(delta, i, depth), Counts(delta, depth, n);
            && Descend(delta, cnt, path[..l], r, TagsOf(path, r)[l..]) == Some(path)
            && DescendCost(delta, cnt, path[..l], r, TagsOf(path, r)[l..]) == DigitCost(path[l..])
    decreases depth - l
  {
    var path := Path(delta, i, depth);
    if l < depth {
      PathInTree(delta, depth, n, i, l + 1);
      DescendFrom(delta, depth, n, i, r, l + 1);
      var tags := TagsOf(path, r)[l..];
      assert tags[0] == Hash(NodeKey(path[..l+1]), r);
      assert tags[1..] == TagsOf(path, r)[l+1..];
      assert path[..l+1][..l] == path[..l] && path[..l] + [path[l]] == path[..l+1];
      assert path[l..][1..] == path[l+1..];
    } else {
      assert path[..l] == path;
    }
  }

  /** Resolving device i's own message finds leaf i, at digit + 1 probes a level. */
  lemma DescentInvertsMessage(delta: nat, depth: nat, n: nat, i: nat, r: int)
    requires delta >= 2 && i < n <= Pow(delta, depth)
    ensures var path, cnt := Path(delta, i, depth), Counts(delta, depth, n);
            && Descend(delta, cnt, [], r, TagsOf(path, r)) == Some(path)
            && Index(delta, path) == i
            && DescendCost(delta, cnt, [], r, TagsOf(path, r)) == DigitCost(path)
  {
    var path := Path(delta, i, depth);
    DescendFrom(delta, depth, n, i, r, 0);
    assert path[0..] == path && TagsOf(path, r)[0..] == TagsOf(path, r) && path[..0] == [];
    IndexOfPrefix(delta, i, depth, depth);
    assert path[..depth] == path;
  }

  lemma {:induction false} DescendSound(delta: nat, cnt: seq<nat>, node: Node, r: int, tags: seq<Tag>)
    requires Descend(delta, cnt, node, r, tags).Some?
    ensures var leaf := Descend(delta, cnt, node, r, tags).value;
            && |leaf| == |node| + |tags| && leaf[..|node|] == node
            && tags == TagsOf(leaf, r)[|node|..]
            && (tags != [] ==> InTree(delta, cnt, leaf))
    decreases |tags|
  {
    if tags != [] {
      var c := MatchedChild(delta, cnt, node, r, tags[0]).value;
      var leaf := Descend(delta, cnt, node, r, tags).value;
      DescendSound(delta, cnt, node + [c], r, tags[1..]);
      ChildInTree(delta, cnt, node, c);
      assert tags[0].key.node == node + [c] == leaf[..|node|+1];
      assert leaf[..|node|+1][..|node|] == leaf[..|node|];
      assert tags == [tags[0]] + tags[1..] == TagsOf(leaf, r)[|node|..];
      if tags[1..] == [] { assert leaf == node + [c]; }
    }
  }

  lemma LeafInRange(delta: nat, depth: nat, n: nat, leaf: Node)
    requires delta >= 2 && InTree(delta, Counts(delta, depth, n), leaf)
    ensures Index(delta, leaf) < n
  {
    hide Index, Pow;
    assert Counts(delta, depth, n)[|leaf|] == Count(delta, n, depth - |leaf|);
    if n > 0 { CutAtMost(delta, n - 1, depth - |leaf|); }
  }

  lemma AnswerIsOwnPath(delta: nat, depth: nat, n: nat, r: int, tags: seq<Tag>)
    requires delta >= 2 && n <= Pow(delta, depth) && |tags| == depth >= 1
    requires Descend(delta, Counts(delta, depth, n), [], r, tags).Some?
    ensures var leaf := Descend(delta, Counts(delta, depth, n), [], r, tags).value;
            && Index(delta, leaf) < n
            && leaf == Path(delta, Index(delta, leaf), depth)
            && tags == TagsOf(leaf, r)
  {
    hide Pow, Path, Index;
    var leaf := Descend(delta, Counts(delta, depth, n), [], r, tags).value;
    DescendSound(delta, Counts(delta, depth, n), [], r, tags);
    assert TagsOf(leaf, r)[0..] == TagsOf(leaf, r);
    LeafInRange(delta, depth, n, leaf);
    var i := Index(delta, leaf);
    DescentInvertsMessage(delta, depth, n, i, r);
    PathDigits(delta, i, depth);
    IndexInjective(delta, leaf, Path(delta, i, depth));
  }

  /** For any list of depth tags: leaf i answers exactly when they are device i's
      tags, and otherwise there is no answer. */
  lemma ResolvesExactlyOwnTags(delta: nat, depth: nat, n: nat, r: int, tags: seq<Tag>, i: nat)
    requires delta >= 2 && n <= Pow(delta, depth) && |tags| == depth >= 1
    ensures var found := Descend(delta, Counts(delta, depth, n), [], r, tags);
            && (found.Some? ==> Index(delta, found.value) < n)
            && (i < n ==> ((found.Some? && Index(delta, found.value) == i)
                           <==> tags == TagsOf(Path(delta, i, depth), r)))
  {
    hide Pow, Path, Index, Descend;
    if Descend(delta, Counts(delta, depth, n), [], r, tags).Some? {
      AnswerIsOwnPath(delta, depth, n, r, tags);
    }
    if i < n {
      DescentInvertsMessage(delta, depth, n, i, r);
    }
  }

  /** Any tag list, of whatever length, resolves to nothing or to an enrolled
      index; the one exception is no tags at all against an empty tree. */
  lemma ResolvesInRange(delta: nat, depth: nat, n: nat, r: int, tags: seq<Tag>)
    requires delta >= 2
    requires Descend(delta, Counts(delta, depth, n), [], r, tags).Some?
    ensures Index(delta, Descend(delta, Counts(delta, depth, n), [], r, tags).value) < n <==> n > 0 || tags != []
  {
    DescendSound(delta, Counts(delta, depth, n), [], r, tags);
    var leaf := Descend(delta, Counts(delta, depth, n), [], r, tags).value;
    if tags != [] { LeafInRange(delta, depth, n, leaf); }
  }

  // ---- Lists of any length ---------------------------------------------------------

  lemma {:induction false} DescendPrefix(delta: nat, cnt: seq<nat>, node: Node, r: int, tags: seq<Tag>, m: nat)
    requires m <= |tags| && Descend(delta, cnt, node, r, tags).Some?
    ensures var leaf := Descend(delta, cnt, node, r, tags).value;
            |leaf| == |node| + |tags| && Descend(delta, cnt, node, r, tags[..m]) == Some(leaf[..|node|+m])
    decreases |tags|
  {
    var leaf := Descend(delta, cnt, node, r, tags).value;
    hide MatchedChild;
    DescendSound(delta, cnt, node, r, tags);
    if m > 0 {
      var c := MatchedChild(delta, cnt, node, r, tags[0]).value;
      DescendPrefix(delta, cnt, node + [c], r, tags[1..], m - 1);
      assert tags[..m][1..] == tags[1..][..m-1];
    }
  }

  /** The first l tags of device i's message name the peer at i / delta^(depth-l). */
  lemma PrefixNamesQuotient(delta: nat, depth: nat, n: nat, i: nat, r: int, l: nat)
    requires delta >= 2 && i < n <= Pow(delta, depth) && l <= depth
    ensures var path := Path(delta, i, depth);
            && TagsOf(path, r)[..l] == TagsOf(path[..l], r)
            && Descend(delta, Counts(delta, depth, n), [], r, TagsOf(path, r)[..l]) == Some(path[..l])
            && Pow(delta, depth - l) >= 1 && Index(delta, path[..l]) == i / Pow(delta, depth - l)
  {
    hide Pow, Path, Index, Descend, Counts;
    var path := Path(delta, i, depth);
    DescentInvertsMessage(delta, depth, n, i, r);
    DescendPrefix(delta, Counts(delta, depth, n), [], r, TagsOf(path, r), l);
    forall k | 0 <= k < l ensures TagsOf(path, r)[..l][k] == TagsOf(path[..l], r)[k] {
      assert path[..k+1] == path[..l][..k+1];
    }
    IndexOfPrefix(delta, i, depth, l);
    CutIsDivision(delta, i, depth - l);
  }

  /** Every node of the tree lies on the path of a device. */
  lemma DeviceBelow(delta: nat, depth: nat, n: nat, node: Node) returns (i: nat)
    requires delta >= 2 && n <= Pow(delta, depth) && InTree(delta, Counts(delta, depth, n), node)
    ensures i < n && |node| <= depth && node == Path(delta, i, depth)[..|node|]
  {
    hide Pow, Path, Index, Cut;
    var l, v := |node|, Index(delta, node);
    assert v < Count(delta, n, depth - l);
    PowPositive(delta, depth - l);
    i := v * Pow(delta, depth - l);
    CutIsDivision(delta, n - 1, depth - l);
    DivMod(n - 1, Pow(delta, depth - l));
    MulMono(v, (n - 1) / Pow(delta, depth - l), Pow(delta, depth - l));
    IndexOfPrefix(delta, i, depth, l);
    CutIsDivision(delta, i, depth - l);
    DivBy(i, v, 0, Pow(delta, depth - l));
    PathDigits(delta, i, depth);
    IndexInjective(delta, node, Path(delta, i, depth)[..l]);
  }

  /** Tags of any number resolve to a node exactly when they are that node's tags, and
      it is the root or in the tree. */
  lemma ResolvesExactly(delta: nat, depth: nat, n: nat, r: int, tags: seq<Tag>, node: Node)
    requires delta >= 2 && n <= Pow(delta, depth)
    ensures Descend(delta, Counts(delta, depth, n), [], r, tags) == Some(node)
       <==> (node == [] || InTree(delta, Counts(delta, depth, n), node)) && tags == TagsOf(node, r)
  {
    var cnt := Counts(delta, depth, n);
    if Descend(delta, cnt, [], r, tags) == Some(node) {
      DescendSound(delta, cnt, [], r, tags);
      assert TagsOf(node, r)[0..] == TagsOf(node, r);
    }
    hide Pow, Path, Index, InTree, Counts;
    if InTree(delta, cnt, node) && tags == TagsOf(node, r) {
      var i := DeviceBelow(delta, depth, n, node);
      PrefixNamesQuotient(delta, depth, n, i, r, |node|);
    }
  }

  /** Whoever a list names, it is that device's own message exactly when it is as long
      as the tree is deep. */
  lemma OwnMessageExactly(delta: nat, depth: nat, n: nat, r: int, tags: seq<Tag>)
    requires delta >= 2 && 0 < n <= Pow(delta, depth) && depth >= 1
    requires Descend(delta, Counts(delta, depth, n), [], r, tags).Some?
    ensures var i := Index(delta, Descend(delta, Counts(delta, depth, n), [], r, tags).value);
            i < n && (tags == TagsOf(Path(delta, i, depth), r) <==> |tags| == depth)
  {
    hide Pow, Path, Index, Descend, Counts;
    ResolvesInRange(delta, depth, n, r, tags);
    if |tags| == depth { AnswerIsOwnPath(delta, depth, n, r, tags); }
  }

  /** Of four devices in a binary tree: the first tag of device 2 alone names peer 1,
      and no tags at all name peer 0. */
  lemma ShortListNamesAnother(r: int)
    ensures var cnt, tags := Counts(2, 2, 4), TagsOf(Path(2, 2, 2), r);
            && Descend(2, cnt, [], r, tags[..1]) == Some([1]) && Index(2, [1]) == 1
            && Descend(2, cnt, [], r, tags[..0]) == Some([]) && Index(2, []) == 0
  {
    assert Pow(2, 2) == 4 && Pow(2, 1) == 2;
    PrefixNamesQuotient(2, 2, 4, 2, r, 1);
    PrefixNamesQuotient(2, 2, 4, 2, r, 0);
    assert Path(2, 2, 2) == [1, 0];
  }

  // ---- Answers and costs ---------------------------------------------------------------

  lemma AtMost(i: nat, p: nat)
    requires p >= 1
    ensures i / p <= i
  {
    DivMod(i, p);
  }

  /** The first l tags of device i are answered with the peer at i / delta^(depth-l), and so
      its whole message with peer i. */
  lemma PrefixAnswer(t: KeyTree, r: int, i: nat, l: nat)
    requires t.Valid() && i < |t.peers| && l <= t.depth
    ensures Pow(t.delta, t.depth - l) >= 1 && i / Pow(t.delta, t.depth - l) < |t.peers|
    ensures t.OutcomeOf(r, TagsOf(Path(t.delta, i, t.depth), r)[..l]) == Match(t.peers[i / Pow(t.delta, t.depth - l)])
  {
    hide TreeOf, Pow, Path, Index, Descend, Counts, TagsOf;
    PrefixNamesQuotient(t.delta, t.depth, |t.peers|, i, r, l);
    AtMost(i, Pow(t.delta, t.depth - l));
  }

  lemma OwnAnswer(t: KeyTree, r: int, i: nat)
    requires t.Valid() && i < |t.peers|
    ensures t.OutcomeOf(r, TagsOf(Path(t.delta, i, t.depth), r)) == Match(t.peers[i])
  {
    hide TreeOf, Pow, Path, Index, Descend, Counts, TagsOf;
    DescentInvertsMessage(t.delta, t.depth, |t.peers|, i, r);
  }

  /** ... and nothing else is answered but the tags of some node. */
  lemma NoOtherAnswer(t: KeyTree, r: int, tags: seq<Tag>)
    requires t.Valid()
    ensures var cnt := Counts(t.delta, t.depth, |t.peers|);
            t.OutcomeOf(r, tags) == NoMatch <==>
              forall node :: (node == [] || InTree(t.delta, cnt, node)) ==> tags != TagsOf(node, r)
  {
    hide TreeOf, Pow, Index, Descend, Counts, InTree, TagsOf;
    var cnt := Counts(t.delta, t.depth, |t.peers|);
    forall node
      ensures Descend(t.delta, cnt, [], r, tags) == Some(node) <==>
                (node == [] || InTree(t.delta, cnt, node)) && tags == TagsOf(node, r)
    {
      ResolvesExactly(t.delta, t.depth, |t.peers|, r, tags, node);
    }
  }

  lemma {:induction false} DescendSplit(delta: nat, cnt: seq<nat>, node: Node, r: int, a: seq<Tag>, b: seq<Tag>)
    requires Descend(delta, cnt, node, r, a).Some?
    ensures var mid := Descend(delta, cnt, node, r, a).value;
            && Descend(delta, cnt, node, r, a + b) == Descend(delta, cnt, mid, r, b)
            && DescendCost(delta, cnt, node, r, a + b)
                == DescendCost(delta, cnt, node, r, a) + DescendCost(delta, cnt, mid, r, b)
    decreases |a|
  {
    hide MatchedChild, ChildCount;
    if a == [] {
      assert a + b == b;
    } else {
      var c := MatchedChild(delta, cnt, node, r, a[0]).value;
      DescendSplit(delta, cnt, node + [c], r, a[1..], b);
      assert (a + b)[0] == a[0] && (a + b)[1..] == a[1..] + b;
    }
  }

  lemma {:induction false} DigitCostSplit(a: seq<nat>, b: seq<nat>)
    ensures DigitCost(a + b) == DigitCost(a) + DigitCost(b)
  {
    if a == [] {
      assert a + b == b;
    } else {
      assert (a + b)[0] == a[0] && (a + b)[1..] == a[1..] + b;
      DigitCostSplit(a[1..], b);
    }
  }

  /** The tags of a node of the tree cost digit + 1 probes a level. */
  lemma NodeCost(delta: nat, depth: nat, n: nat, node: Node, r: int)
    requires delta >= 2 && n <= Pow(delta, depth)
    requires node == [] || InTree(delta, Counts(delta, depth, n), node)
    ensures var cnt := Counts(delta, depth, n);
            && Descend(delta, cnt, [], r, TagsOf(node, r)) == Some(node)
            && DescendCost(delta, cnt, [], r, TagsOf(node, r)) == DigitCost(node)
  {
    hide Pow, Path, Index, InTree, Counts;
    var cnt := Counts(delta, depth, n);
    if node != [] {
      hide Descend, DescendCost, DigitCost;
      var i := DeviceBelow(delta, depth, n, node);
      var l, path := |node|, Path(delta, i, depth);
      var tags := TagsOf(path, r);
      PrefixNamesQuotient(delta, depth, n, i, r, l);
      DescentInvertsMessage(delta, depth, n, i, r);
      DescendFrom(delta, depth, n, i, r, l);
      DescendSplit(delta, cnt, [], r, tags[..l], tags[l..]);
      DigitCostSplit(path[..l], path[l..]);
      assert tags == tags[..l] + tags[l..] && path == path[..l] + path[l..];
    }
  }

  /** A node's children are numbered 0 .. k-1 and no more. */
  lemma ChildrenExactly(delta: nat, cnt: seq<nat>, node: Node, c: nat)
    ensures c < ChildCount(delta, cnt, node) <==> InTree(delta, cnt, node + [c])
  {
    hide ChildCount, InTree;
    if c < ChildCount(delta, cnt, node) { ChildInTree(delta, cnt, node, c); }
    if InTree(delta, cnt, node + [c]) {
      ListedByParent(delta, cnt, node + [c]);
      assert (node + [c])[..|node|] == node;
    }
  }

  /** A list that leads to a node and then on to none of its children answers nothing, for
      digit + 1 probes a level and one for each child. */
  lemma FailedCost(delta: nat, depth: nat, n: nat, node: Node, r: int, tag: Tag, rest: seq<Tag>)
    requires delta >= 2 && n <= Pow(delta, depth)
    requires node == [] || InTree(delta, Counts(delta, depth, n), node)
    requires forall c: nat :: InTree(delta, Counts(delta, depth, n), node + [c]) ==> tag != Hash(NodeKey(node + [c]), r)
    ensures var (cnt, tags) := (Counts(delta, depth, n), TagsOf(node, r) + ([tag] + rest));
            && Descend(delta, cnt, [], r, tags) == None
            && DescendCost(delta, cnt, [], r, tags) == DigitCost(node) + ChildCount(delta, cnt, node)
  {
    hide MatchedChild, ChildCount, InTree, Counts, Pow, Descend, DescendCost, DigitCost, TagsOf;
    var cnt := Counts(delta, depth, n);
    NodeCost(delta, depth, n, node, r);
    DescendSplit(delta, cnt, [], r, TagsOf(node, r), [tag] + rest);
    NoChild(delta, cnt, node, r, tag);
    StuckAt(delta, cnt, node, r, tag, rest);
  }

  lemma NoChild(delta: nat, cnt: seq<nat>, node: Node, r: int, tag: Tag)
    requires forall c: nat :: InTree(delta, cnt, node + [c]) ==> tag != Hash(NodeKey(node + [c]), r)
    ensures MatchedChild(delta, cnt, node, r, tag).None?
  {
    hide ChildCount, InTree;
    if tag.Hash? && |tag.key.node| == |node| + 1 && tag.key.node[..|node|] == node {
      ChildrenExactly(delta, cnt, node, tag.key.node[|node|]);
      assert tag.key.node == node + [tag.key.node[|node|]];
    }
  }

  lemma StuckAt(delta: nat, cnt: seq<nat>, node: Node, r: int, tag: Tag, rest: seq<Tag>)
    requires MatchedChild(delta, cnt, node, r, tag).None?
    ensures Descend(delta, cnt, node, r, [tag] + rest) == None
    ensures DescendCost(delta, cnt, node, r, [tag] + rest) == ChildCount(delta, cnt, node)
  {
    hide MatchedChild, ChildCount;
    assert ([tag] + rest)[0] == tag;
  }

  lemma {:induction false} DescendCostBound(delta: nat, cnt: seq<nat>, node: Node, r: int, tags: seq<Tag>)
    ensures DescendCost(delta, cnt, node, r, tags) <= delta * |tags|
    decreases |tags|
  {
    if tags != [] {
      var child := MatchedChild(delta, cnt, node, r, tags[0]);
      assert delta * |tags| == delta + delta * (|tags| - 1);
      assert ChildCount(delta, cnt, node) <= delta;
      if child.Some? {
        DescendCostBound(delta, cnt, node + [child.value], r, tags[1..]);
      }
    }
  }

  // ---- Storage -------------------------------------------------------------------

  ghost function LevelNodes(delta: nat, l: nat, c: nat): set<Node>
    requires delta >= 2
  {
    if c == 0 then {} else LevelNodes(delta, l, c - 1) + {Path(delta, c - 1, l)}
  }

  lemma NewestNode(delta: nat, l: nat, v: nat, node: Node)
    requires delta >= 2 && v < Pow(delta, l)
    ensures node == Path(delta, v, l) <==> |node| == l && Digits(delta, node) && Index(delta, node) == v
  {
    var path := Path(delta, v, l);
    PathDigits(delta, v, l);
    IndexOfPrefix(delta, v, l, l);
    assert path[..l] == path;
    if |node| == l && Digits(delta, node) && Index(delta, node) == v {
      IndexInjective(delta, node, path);
    }
  }

  lemma {:induction false} LevelMembers(delta: nat, l: nat, c: nat, node: Node)
    requires delta >= 2 && c <= Pow(delta, l)
    ensures node in LevelNodes(delta, l, c) <==> |node| == l && Digits(delta, node) && Index(delta, node) < c
  {
    if c > 0 {
      hide Pow, Path, Index;
      LevelMembers(delta, l, c - 1, node);
      NewestNode(delta, l, c - 1, node);
    }
  }

  lemma NewestIsNew(delta: nat, l: nat, c: nat)
    requires delta >= 2 && 0 < c <= Pow(delta, l)
    ensures Path(delta, c - 1, l) !in LevelNodes(delta, l, c - 1)
  {
    hide Pow, Path, Index, Digits, LevelNodes;
    NewestNode(delta, l, c - 1, Path(delta, c - 1, l));
    LevelMembers(delta, l, c - 1, Path(delta, c - 1, l));
  }

  lemma {:induction false} LevelSize(delta: nat, l: nat, c: nat)
    requires delta >= 2 && c <= Pow(delta, l)
    ensures |LevelNodes(delta, l, c)| == c
  {
    hide Pow, Path, Index, Digits;
    if c > 0 {
      LevelSize(delta, l, c - 1);
      NewestIsNew(delta, l, c);
    }
  }

  /** ceil(n / delta^(d-1)) + .. + ceil(n / delta^(d-l)): the nodes on levels 1 .. l. */
  function NodesUpTo(delta: nat, depth: nat, n: nat, l: nat): nat
    requires delta >= 2 && l <= depth
  {
    if l == 0 then 0
    else
      PowPositive(delta, depth - l);
      NodesUpTo(delta, depth, n, l - 1) + CeilDiv(n, Pow(delta, depth - l))
  }

  lemma LevelFits(delta: nat, depth: nat, n: nat, l: nat)
    requires delta >= 2 && n <= Pow(delta, depth) && 1 <= l <= depth
    ensures Count(delta, n, depth - l) <= Pow(delta, l)
  {
    if n > 0 { CutBelow(delta, n - 1, depth - l, depth); }
  }

  lemma OnLevel(delta: nat, depth: nat, n: nat, l: nat, node: Node)
    requires delta >= 2 && n <= Pow(delta, depth) && 1 <= l <= depth
    requires |node| <= l
    ensures Count(delta, n, depth - l) <= Pow(delta, l)
    ensures InTree(delta, Counts(delta, depth, n), node) && |node| == l
       <==> node in LevelNodes(delta, l, Count(delta, n, depth - l))
  {
    LevelFits(delta, depth, n, l);
    hide Pow, Path, Index, LevelNodes, Count;
    LevelMembers(delta, l, Count(delta, n, depth - l), node);
  }

  ghost function NodesThrough(key: map<Node, NodeKey>, l: nat): set<Node> {
    set node | node in key && |node| <= l
  }

  lemma NextLevel(delta: nat, depth: nat, n: nat, key: map<Node, NodeKey>, l: nat)
    requires delta >= 2 && n <= Pow(delta, depth) && 1 <= l <= depth
    requires forall node :: node in key <==> InTree(delta, Counts(delta, depth, n), node)
    ensures NodesThrough(key, l) == NodesThrough(key, l - 1) + LevelNodes(delta, l, Count(delta, n, depth - l))
    ensures NodesThrough(key, l - 1) !! LevelNodes(delta, l, Count(delta, n, depth - l))
  {
    LevelFits(delta, depth, n, l);
    var level := LevelNodes(delta, l, Count(delta, n, depth - l));
    hide Pow, Path, Index, LevelNodes, Count, InTree;
    forall node: Node
      ensures node in NodesThrough(key, l) <==> node in NodesThrough(key, l - 1) || node in level
      ensures !(node in NodesThrough(key, l - 1) && node in level)
    {
      if |node| <= l { OnLevel(delta, depth, n, l, node); }
      LevelMembers(delta, l, Count(delta, n, depth - l), node);
    }
  }

  lemma {:induction false} NodesOnLevels(delta: nat, depth: nat, n: nat, key: map<Node, NodeKey>, l: nat)
    requires delta >= 2 && n <= Pow(delta, depth) && l <= depth
    requires forall node :: node in key <==> InTree(delta, Counts(delta, depth, n), node)
    ensures |NodesThrough(key, l)| == NodesUpTo(delta, depth, n, l)
  {
    if l == 0 {
      assert NodesThrough(key, 0) == {};
    } else {
      hide *;
      NodesOnLevels(delta, depth, n, key, l - 1);
      NextLevel(delta, depth, n, key, l);
      LevelFits(delta, depth, n, l);
      LevelSize(delta, l, Count(delta, n, depth - l));
      NodesUpToNext(delta, depth, n, l);
    }
  }

  lemma NodesUpToNext(delta: nat, depth: nat, n: nat, l: nat)
    requires delta >= 2 && 1 <= l <= depth
    ensures NodesUpTo(delta, depth, n, l) == NodesUpTo(delta, depth, n, l - 1) + Count(delta, n, depth - l)
  {
    hide Count, Pow, CeilDiv;
    CountIsCeil(delta, n, depth - l);
  }

  const KEY_BYTES: nat := 32

  /** storage_bytes in closed form: one key per distinct proper path prefix. */
  lemma StorageClosedForm(t: KeyTree)
    requires t.Valid()
    ensures KEY_BYTES * |set node | node in t.key && |node| < t.depth|
         == 32 * NodesUpTo(t.delta, t.depth, |t.peers|, t.depth - 1)
  {
    NodesOnLevels(t.delta, t.depth, |t.peers|, t.key, t.depth - 1);
    assert (set node | node in t.key && |node| < t.depth) == NodesThrough(t.key, t.depth - 1);
  }
}
