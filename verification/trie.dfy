/** The binary trie of bgp-router/Trie.py that holds the router's forwarding
    table. Node i levels below the root stands for a prefix of length i; its
    path spells the prefix's bits, most significant first. A node keeps a
    preferred route and the alternatives for the same prefix. Inserting a
    route walks down its prefix, creating missing nodes, places the route,
    and then merges sibling prefixes with the same attributes upwards.

    The Python nodes also carry their own bit and a parent pointer; here a
    node is a value and both are given by its path from the root. */
module Trie {
  import opened Wrappers
  import opened Bits
  import opened IpAddr
  import opened Routes

  type Bit = b: nat | b < 2

  /** TrieNode: children[0], children[1], route_info and alternatives. */
  datatype Node = Node(
    zero: Option<Node>,
    one: Option<Node>,
    routeInfo: Option<Route>,
    alternatives: seq<Route>)

  /** A fresh TrieNode, also the root of an empty Trie. */
  const Empty := Node(None, None, None, [])

  function Child(t: Node, b: Bit): Option<Node>
  {
    if b == 0 then t.zero else t.one
  }

  function WithChild(t: Node, b: Bit, c: Option<Node>): Node
  {
    if b == 0 then t.(zero := c) else t.(one := c)
  }

  /** `1 - node.bit`. */
  function Sibling(b: Bit): Bit
  {
    1 - b
  }

  function OrEmpty(n: Option<Node>): Node
  {
    if n.Some? then n.value else Empty
  }

  /** The first len bits of a 32-bit word, most significant first. */
  function PathBits(v: nat, len: nat): (p: seq<Bit>)
    requires len <= 32
  {
    seq(len, i requires 0 <= i < len => BitAt(v, i))
  }

  /** The node reached from t by following the bits of q, if every step exists. */
  function NodeAt(t: Node, q: seq<Bit>): Option<Node>
    decreases |q|
  {
    if |q| == 0 then Some(t)
    else match Child(t, q[0])
      case None => None
      case Some(c) => NodeAt(c, q[1..])
  }

  /** The preferred route at the node at q, if there is one. */
  function RouteAt(t: Node, q: seq<Bit>): Option<Route>
  {
    match NodeAt(t, q)
    case None => None
    case Some(n) => n.routeInfo
  }

  predicate IsPrefix(q: seq<Bit>, p: seq<Bit>)
  {
    |q| <= |p| && p[..|q|] == q
  }

  /** Every node of res that is neither on the path w nor below its end is
      the node of t at the same path. */
  ghost predicate Untouched(res: Node, t: Node, w: seq<Bit>)
  {
    forall s :: !IsPrefix(s, w) && !IsPrefix(w, s) ==> NodeAt(res, s) == NodeAt(t, s)
  }

  /** A node that exists and has no children. */
  predicate Cleared(o: Option<Node>)
  {
    o.Some? && o.value.zero.None? && o.value.one.None?
  }

  /** The routes dump lists for one node: the preferred route, then the
      alternatives, and nothing when there is no preferred route. */
  function Stored(n: Node): seq<Route>
  {
    if n.routeInfo.Some? then [n.routeInfo.value] + n.alternatives else []
  }

  // ----- Invariant

  /** A route belongs at path q: it is well formed, its prefix length is |q|,
      and the first |q| bits of its network spell q. */
  predicate Fits(r: Route, q: seq<Bit>)
  {
    |q| <= 32 && ValidRoute(r) && Length(r) == |q|
    && forall i :: 0 <= i < |q| ==> BitAt(IpToInt(r.network), i) == q[i]
  }

  /** Every route in the subtree t, whose path is q, sits at its own prefix,
      and a node without a preferred route has no alternatives. */
  predicate Placed(t: Node, q: seq<Bit>)
    decreases t
  {
    (t.routeInfo.Some? ==> Fits(t.routeInfo.value, q))
    && (t.routeInfo.None? ==> t.alternatives == [])
    && (forall a :: a in t.alternatives ==> Fits(a, q))
    && (t.zero.Some? ==> Placed(t.zero.value, q + [0]))
    && (t.one.Some? ==> Placed(t.one.value, q + [1]))
  }

  /** No alternative is preferred to the node's preferred route. */
  predicate Unbeaten(n: Node)
  {
    n.routeInfo.Some? ==> forall a :: a in n.alternatives ==> !CompareRoutes(a, n.routeInfo.value)
  }

  // ----- insert

  /** The end-node step of insert: the route becomes the preferred one when
      there was none or when compare_routes prefers it, and the route it
      displaces, or the route itself otherwise, joins the alternatives. */
  function Place(n: Node, r: Route): (res: Node)
    ensures res.zero == n.zero && res.one == n.one
    ensures n.routeInfo.None? && n.alternatives == [] ==> Stored(res) == [r]
    ensures n.routeInfo.Some? ==>
      multiset(Stored(res)) == multiset(Stored(n)) + multiset{r}
      && |res.alternatives| == |n.alternatives| + 1
    ensures n.alternatives <= res.alternatives
    ensures res.routeInfo.Some? && (res.routeInfo.value == r || res.routeInfo == n.routeInfo)
    ensures n.routeInfo.None? || CompareRoutes(r, n.routeInfo.value) ==> res.routeInfo == Some(r)
    ensures n.routeInfo.Some? && !CompareRoutes(r, n.routeInfo.value) ==> res.routeInfo == n.routeInfo
  {
    match n.routeInfo
    case None => n.(routeInfo := Some(r))
    case Some(prev) =>
      if CompareRoutes(r, prev) then n.(routeInfo := Some(r), alternatives := n.alternatives + [prev])
      else n.(alternatives := n.alternatives + [r])
  }

  /** Placing a route keeps the preferred route unbeaten by the alternatives. */
  lemma PlaceUnbeaten(n: Node, r: Route)
    requires Unbeaten(n) && (n.routeInfo.None? ==> n.alternatives == [])
    ensures Unbeaten(Place(n, r))
  {
    if n.routeInfo.Some? {
      var prev := n.routeInfo.value;
      if CompareRoutes(r, prev) {
        forall a | a in n.alternatives + [prev]
          ensures !CompareRoutes(a, r)
        {
          if a == prev {
            CompareAsymmetric(r, prev);
          } else if CompareRoutes(a, r) {
            CompareTransitive(a, r, prev);
          }
        }
        assert Place(n, r) == n.(routeInfo := Some(r), alternatives := n.alternatives + [prev]);
      } else {
        assert Place(n, r) == n.(alternatives := n.alternatives + [r]);
      }
    }
  }

  /** The first loop of insert: follow the bits of p from t, creating each
      missing node, then place the route at the end node. */
  function Descend(t: Node, p: seq<Bit>, r: Route): (res: Node)
    ensures |p| > 0 ==> res.routeInfo == t.routeInfo && res.alternatives == t.alternatives
    decreases |p|
  {
    if |p| == 0 then Place(t, r)
    else WithChild(t, p[0], Some(Descend(OrEmpty(Child(t, p[0])), p[1..], r)))
  }

  /** The merge test of aggregate for a walk node c whose sibling is s. */
  predicate Mergeable(c: Node, s: Option<Node>)
  {
    s.Some? && s.value.routeInfo.Some? && c.routeInfo.Some?
    && CanAggregate(c.routeInfo.value, s.value.routeInfo.value)
  }

  /** aggregate, started at the end node of path p below t (whose own path
      is q). The result is the new subtree and whether the upward walk is
      still going on at t: a merge gives the parent the aggregated route of
      the walk node and drops both children, and the walk moves to the
      parent; the first level that cannot merge stops it. */
  function AggregateAlong(t: Node, p: seq<Bit>, q: seq<Bit>): (res: (Node, bool))
    requires Placed(t, q)
    ensures Placed(res.0, q)
    ensures res.0.alternatives == t.alternatives
    ensures !res.1 ==> res.0.routeInfo == t.routeInfo
    ensures res.1 && |p| > 0 ==>
      res.0.zero.None? && res.0.one.None? && res.0.routeInfo.Some?
      && Child(t, Sibling(p[0])).Some? && Child(t, Sibling(p[0])).value.routeInfo.Some?
      && CanAggregate(res.0.routeInfo.value, Child(t, Sibling(p[0])).value.routeInfo.value)
    decreases |p|
  {
    if |p| == 0 then (t, true)
    else match Child(t, p[0])
      case None => (t, false)
      case Some(c) =>
        var (c', active) := AggregateAlong(c, p[1..], q + [p[0]]);
        var sib := Child(t, Sibling(p[0]));
        if active && Mergeable(c', sib) then
          var merged := c'.routeInfo.value;
          AggregateFits(merged, q, p[0]);
          (t.(routeInfo := Some(AggregateInfo(merged)), zero := None, one := None), true)
        else
          (WithChild(t, p[0], Some(c')), false)
  }

  /** The route x after n merges: aggregate_info applied n times, each
      time one bit shorter and with the same attributes. */
  function Widen(x: Route, n: nat): (y: Route)
    requires ValidRoute(x) && Length(x) >= n
    ensures ValidRoute(y) && Length(y) == Length(x) - n
    ensures CanAggregate(y, x)
    decreases n
  {
    if n == 0 then x else AggregateInfo(Widen(x, n - 1))
  }

  /** One more merge is one more aggregate_info. */
  lemma WidenStep(x: Route, n: nat, m: nat)
    requires ValidRoute(x) && Length(x) >= n && n == m + 1
    ensures Widen(x, n) == AggregateInfo(Widen(x, m))
  {
  }

  lemma WidenSame(x: Route, m: nat, n: nat)
    requires ValidRoute(x) && Length(x) >= n && m == n
    ensures Widen(x, m) == Widen(x, n)
  {
  }

  /** Level k of the walk along p: the node at depth k + 1 on the path has
      a sibling whose route can be aggregated with x. */
  predicate SiblingAgrees(t: Node, p: seq<Bit>, k: nat, x: Route)
    requires k < |p|
  {
    match NodeAt(t, p[..k])
    case None => false
    case Some(n) =>
      var s := Child(n, Sibling(p[k]));
      s.Some? && s.value.routeInfo.Some? && CanAggregate(x, s.value.routeInfo.value)
  }

  /** Walking up from an end node whose route is x, every level merges
      exactly when every sibling from there down to the end node has a
      route with x's attributes; a walk that reaches the top has merged at
      every level, leaving x widened by the length of the path. */
  lemma {:induction false} AggregateMerges(t: Node, p: seq<Bit>, q: seq<Bit>, x: Route)
    requires Placed(t, q) && RouteAt(t, p) == Some(x) && Fits(x, q + p)
    ensures AggregateAlong(t, p, q).1 <==> forall k :: 0 <= k < |p| ==> SiblingAgrees(t, p, k, x)
    ensures AggregateAlong(t, p, q).1 ==> AggregateAlong(t, p, q).0.routeInfo == Some(Widen(x, |p|))
    decreases |p|
  {
    if |p| > 0 {
      var c := WalkStep(t, p, q, x);
      AggregateMerges(c, p[1..], q + [p[0]], x);
      var sub := MergeLevel(t, p, q, c);
      LevelZero(t, p, x, Widen(x, |p[1..]|), sub);
      AgreesSplit(t, p, c, x);
      WidenStep(x, |p|, |p[1..]|);
    }
  }

  /** The walk stops at the deepest level j that cannot merge: the n
      levels below it have merged, the node there keeps x widened n times,
      and the nodes above it keep their routes. */
  lemma {:induction false} AggregateStops(t: Node, p: seq<Bit>, q: seq<Bit>, x: Route, j: nat, n: nat)
    requires Placed(t, q) && RouteAt(t, p) == Some(x) && Fits(x, q + p)
    requires j < |p| && !SiblingAgrees(t, p, j, x)
    requires forall k :: j < k < |p| ==> SiblingAgrees(t, p, k, x)
    requires n == |p| - 1 - j
    ensures !AggregateAlong(t, p, q).1
    ensures RouteAt(AggregateAlong(t, p, q).0, p[..j + 1]) == Some(Widen(x, n))
    ensures forall k :: 0 <= k <= j ==> RouteAt(AggregateAlong(t, p, q).0, p[..k]) == RouteAt(t, p[..k])
    ensures Untouched(AggregateAlong(t, p, q).0, t, p[..j + 1])
    ensures n > 0 ==> Cleared(NodeAt(AggregateAlong(t, p, q).0, p[..j + 1]))
    decreases |p|
  {
    if j == 0 {
      StopsHere(t, p, q, x, j, n);
    } else {
      var c := WalkStep(t, p, q, x);
      var p', q', i := p[1..], q + [p[0]], j - 1;
      var sub := MergeLevel(t, p, q, c);
      ShiftAgreesFrom(t, p, c, x, i, j);
      AggregateStops(c, p', q', x, i, n);
      StopRoutes(t, p, c, sub.0, Widen(x, n), i, j);
      StopDown(t, p, c, sub.0, i, j, n);
    }
  }

  /** The walk stops at the top level of p: the walk below it runs to the
      top, and the top level cannot merge. */
  lemma StopsHere(t: Node, p: seq<Bit>, q: seq<Bit>, x: Route, j: nat, n: nat)
    requires Placed(t, q) && RouteAt(t, p) == Some(x) && Fits(x, q + p)
    requires j == 0 && j < |p| && !SiblingAgrees(t, p, j, x)
    requires forall k :: j < k < |p| ==> SiblingAgrees(t, p, k, x)
    requires n == |p| - 1 - j
    ensures !AggregateAlong(t, p, q).1
    ensures RouteAt(AggregateAlong(t, p, q).0, p[..j + 1]) == Some(Widen(x, n))
    ensures forall k :: 0 <= k <= j ==> RouteAt(AggregateAlong(t, p, q).0, p[..k]) == RouteAt(t, p[..k])
    ensures Untouched(AggregateAlong(t, p, q).0, t, p[..j + 1])
    ensures n > 0 ==> Cleared(NodeAt(AggregateAlong(t, p, q).0, p[..j + 1]))
  {
    var c := WalkStep(t, p, q, x);
    var p', q', i := p[1..], q + [p[0]], j - 1;
    var sub := MergeLevel(t, p, q, c);
    assert sub.1 && sub.0.routeInfo == Some(Widen(x, n)) by {
      ShiftAgreesFrom(t, p, c, x, i, j);
      AggregateMerges(c, p', q', x);
      WidenSame(x, |p'|, n);
    }
    LevelZero(t, p, x, Widen(x, n), sub);
    assert p'[..i + 1] == [];
    StopRoutes(t, p, c, sub.0, Widen(x, n), i, j);
    StopTop(t, p, sub.0, j, n);
  }

  /** Putting back a walk node that stops the walk at level j: the route
      j + 1 levels down and the routes on the path above it are those of
      the new subtree one level further down, and the top route is kept. */
  lemma StopRoutes(t: Node, p: seq<Bit>, c: Node, sub: Node, w: Route, i: int, j: nat)
    requires j == i + 1 && j < |p| && Child(t, p[0]) == Some(c)
    requires RouteAt(sub, p[1..][..i + 1]) == Some(w)
    requires forall k :: 0 <= k <= i ==> RouteAt(sub, p[1..][..k]) == RouteAt(c, p[1..][..k])
    ensures RouteAt(WithChild(t, p[0], Some(sub)), p[..j + 1]) == Some(w)
    ensures forall k :: 0 <= k <= j ==> RouteAt(WithChild(t, p[0], Some(sub)), p[..k]) == RouteAt(t, p[..k])
  {
    var res := WithChild(t, p[0], Some(sub));
    RouteAtDown(res, p, j + 1);
    forall k | 0 <= k <= j
      ensures RouteAt(res, p[..k]) == RouteAt(t, p[..k])
    {
      if k == 0 {
        assert p[..k] == [];
      } else {
        RouteAtDown(res, p, k);
        RouteAtDown(t, p, k);
      }
    }
  }

  /** One level of the walk, with sub the result of the walk below it: the
      level merges exactly when that walk is still going on and the walk
      node and its sibling are mergeable;
      a merge leaves the aggregated route and drops both children, and
      otherwise the walk node is put back in place. */
  lemma MergeLevel(t: Node, p: seq<Bit>, q: seq<Bit>, c: Node) returns (sub: (Node, bool))
    requires Placed(t, q) && |p| > 0 && Child(t, p[0]) == Some(c)
    ensures Placed(c, q + [p[0]]) && sub == AggregateAlong(c, p[1..], q + [p[0]])
    ensures AggregateAlong(t, p, q).1 == (sub.1 && Mergeable(sub.0, Child(t, Sibling(p[0]))))
    ensures AggregateAlong(t, p, q).1 ==>
      AggregateAlong(t, p, q).0
      == t.(routeInfo := Some(AggregateInfo(sub.0.routeInfo.value)), zero := None, one := None)
    ensures !AggregateAlong(t, p, q).1 ==> AggregateAlong(t, p, q).0 == WithChild(t, p[0], Some(sub.0))
  {
    ChildPlaced(t, q, p[0]);
    sub := AggregateAlong(c, p[1..], q + [p[0]]);
  }

  /** With the walk below still going on and carrying a route w with x's
      attributes, level 0 merges exactly when its sibling's route has x's
      attributes. */
  lemma LevelZero(t: Node, p: seq<Bit>, x: Route, w: Route, sub: (Node, bool))
    requires |p| > 0 && CanAggregate(w, x)
    requires sub.1 ==> sub.0.routeInfo == Some(w)
    ensures sub.1 && Mergeable(sub.0, Child(t, Sibling(p[0]))) <==> sub.1 && SiblingAgrees(t, p, 0, x)
  {
    assert p[..0] == [];
    var s := Child(t, Sibling(p[0]));
    if sub.1 && s.Some? && s.value.routeInfo.Some? {
      CanAggregateEquivalence(x, w, s.value.routeInfo.value);
      CanAggregateEquivalence(w, x, s.value.routeInfo.value);
    }
  }

  /** Levels 1 and below of the walk along p from t are the levels of the
      walk along p[1..] from the child c. */
  lemma ShiftAgrees(t: Node, p: seq<Bit>, c: Node, x: Route)
    requires |p| > 0 && Child(t, p[0]) == Some(c)
    ensures forall k :: 0 <= k < |p| - 1 ==> SiblingAgrees(c, p[1..], k, x) == SiblingAgrees(t, p, k + 1, x)
  {
    forall k | 0 <= k < |p| - 1
      ensures SiblingAgrees(c, p[1..], k, x) == SiblingAgrees(t, p, k + 1, x)
    {
      PathStep(p, k + 1);
    }
  }

  /** The levels below j of the walk from t are the levels below i = j - 1
      of the walk from the child on the path, and level j is level i. */
  lemma ShiftAgreesFrom(t: Node, p: seq<Bit>, c: Node, x: Route, i: int, j: nat)
    requires j == i + 1 && j < |p| && Child(t, p[0]) == Some(c)
    requires forall k :: j < k < |p| ==> SiblingAgrees(t, p, k, x)
    ensures forall k :: i < k < |p| - 1 ==> SiblingAgrees(c, p[1..], k, x)
    ensures 0 <= i ==> SiblingAgrees(c, p[1..], i, x) == SiblingAgrees(t, p, j, x)
  {
    ShiftAgrees(t, p, c, x);
  }

  /** All levels agree exactly when level 0 does and all levels of the walk
      from the child do. */
  lemma AgreesSplit(t: Node, p: seq<Bit>, c: Node, x: Route)
    requires |p| > 0 && Child(t, p[0]) == Some(c)
    ensures (forall k :: 0 <= k < |p| ==> SiblingAgrees(t, p, k, x))
      <==> SiblingAgrees(t, p, 0, x) && forall k :: 0 <= k < |p| - 1 ==> SiblingAgrees(c, p[1..], k, x)
  {
    ShiftAgrees(t, p, c, x);
    if SiblingAgrees(t, p, 0, x) && forall k :: 0 <= k < |p| - 1 ==> SiblingAgrees(c, p[1..], k, x) {
      forall k | 0 <= k < |p|
        ensures SiblingAgrees(t, p, k, x)
      {
        if k > 0 {
          assert SiblingAgrees(c, p[1..], k - 1, x);
        }
      }
    }
  }

  /** The route k levels down p is the route k - 1 levels down p[1..] from
      the child on the path. */
  lemma RouteAtDown(t: Node, p: seq<Bit>, k: nat)
    requires 0 < k <= |p| && Child(t, p[0]).Some?
    ensures RouteAt(t, p[..k]) == RouteAt(Child(t, p[0]).value, p[1..][..k - 1])
  {
    PathStep(p, k);
  }

  /** The node k levels down p is the node k - 1 levels down p[1..] from
      the child on the path. */
  lemma NodeAtDown(t: Node, p: seq<Bit>, k: nat)
    requires 0 < k <= |p| && Child(t, p[0]).Some?
    ensures NodeAt(t, p[..k]) == NodeAt(Child(t, p[0]).value, p[1..][..k - 1])
  {
    PathStep(p, k);
  }

  /** Replacing the child b leaves every node off the path [b] alone. */
  lemma FrameTop(t: Node, b: Bit, c: Node)
    ensures Untouched(WithChild(t, b, Some(c)), t, [b])
  {
    forall s | !IsPrefix(s, [b]) && !IsPrefix([b], s)
      ensures NodeAt(WithChild(t, b, Some(c)), s) == NodeAt(t, s)
    {
      assert |s| > 0;
    }
  }

  /** Putting back the walk node at the top level of p changes nothing off
      its path, and after at least one merge below it that node has no
      children. */
  lemma StopTop(t: Node, p: seq<Bit>, sub: Node, j: nat, n: nat)
    requires j == 0 && j < |p| && n == |p| - 1 - j
    requires n > 0 ==> sub.zero.None? && sub.one.None?
    ensures Untouched(WithChild(t, p[0], Some(sub)), t, p[..j + 1])
    ensures n > 0 ==> Cleared(NodeAt(WithChild(t, p[0], Some(sub)), p[..j + 1]))
  {
    assert p[..j + 1] == [p[0]];
    FrameTop(t, p[0], sub);
  }

  /** Putting back a walk node below the top level: the frame and the
      cleared stop node of the walk below carry over to the parent. */
  lemma StopDown(t: Node, p: seq<Bit>, c: Node, sub: Node, i: int, j: nat, n: nat)
    requires j == i + 1 && j < |p| && Child(t, p[0]) == Some(c)
    requires Untouched(sub, c, p[1..][..i + 1])
    requires n > 0 ==> Cleared(NodeAt(sub, p[1..][..i + 1]))
    ensures Untouched(WithChild(t, p[0], Some(sub)), t, p[..j + 1])
    ensures n > 0 ==> Cleared(NodeAt(WithChild(t, p[0], Some(sub)), p[..j + 1]))
  {
    FrameStep(t, p, c, sub, i, j);
    NodeAtDown(WithChild(t, p[0], Some(sub)), p, j + 1);
  }

  /** Putting back a walk node whose own subtree changed only on and below
      the path w' leaves the parent changed only on and below [p[0]] + w'. */
  lemma FrameStep(t: Node, p: seq<Bit>, c: Node, sub: Node, i: int, j: nat)
    requires j == i + 1 && j < |p| && Child(t, p[0]) == Some(c)
    requires Untouched(sub, c, p[1..][..i + 1])
    ensures Untouched(WithChild(t, p[0], Some(sub)), t, p[..j + 1])
  {
    var w, w' := p[..j + 1], p[1..][..i + 1];
    assert w == [p[0]] + w';
    forall s | !IsPrefix(s, w) && !IsPrefix(w, s)
      ensures NodeAt(WithChild(t, p[0], Some(sub)), s) == NodeAt(t, s)
    {
      assert |s| > 0;
      if s[0] == p[0] {
        assert s == [p[0]] + s[1..];
      }
    }
  }

  /** One step down the walk: the child on the path, placed at its own
      path and still leading to x. */
  lemma WalkStep(t: Node, p: seq<Bit>, q: seq<Bit>, x: Route) returns (c: Node)
    requires Placed(t, q) && RouteAt(t, p) == Some(x) && Fits(x, q + p) && |p| > 0
    ensures Child(t, p[0]) == Some(c)
    ensures Placed(c, q + [p[0]]) && RouteAt(c, p[1..]) == Some(x) && Fits(x, (q + [p[0]]) + p[1..])
  {
    c := RouteStep(t, p, x);
    ChildPlaced(t, q, p[0]);
    FitsStep(x, q, p);
  }

  lemma RouteStep(t: Node, p: seq<Bit>, x: Route) returns (c: Node)
    requires RouteAt(t, p) == Some(x) && |p| > 0
    ensures Child(t, p[0]) == Some(c) && RouteAt(c, p[1..]) == Some(x)
  {
    c := Child(t, p[0]).value;
  }

  lemma FitsStep(x: Route, q: seq<Bit>, p: seq<Bit>)
    requires Fits(x, q + p) && |p| > 0
    ensures Fits(x, (q + [p[0]]) + p[1..])
  {
    assert (q + [p[0]]) + p[1..] == q + p;
  }

  /** The first k bits of p start with p[0] and go on with the first k - 1
      bits of p[1..]. */
  lemma PathStep(p: seq<Bit>, k: nat)
    requires 0 < k <= |p|
    ensures p[..k][0] == p[0] && p[..k][1..] == p[1..][..k - 1]
  {
  }

  /** The aggregated route of a route at q + [b] belongs at q. */
  lemma AggregateFits(r: Route, q: seq<Bit>, b: Bit)
    requires Fits(r, q + [b])
    ensures Length(r) >= 1 && Fits(AggregateInfo(r), q)
  {
    forall i | 0 <= i < |q|
      ensures BitAt(IpToInt(AggregateInfo(r).network), i) == q[i]
    {
      AggregateInfoBits(r, i);
      assert (q + [b])[i] == q[i];
    }
  }

  /** Trie.insert: the route goes to the node of its prefix, which is its
      network masked to its netmask length, and the walk of aggregate
      starts there. */
  function Insert(root: Node, r: Route): (res: Node)
    requires Placed(root, []) && ValidRoute(r)
    ensures Placed(res, [])
  {
    var p := RoutePath(r);
    DescendPlaced(root, [], p, r);
    AggregateAlong(Descend(root, p, r), p, []).0
  }

  /** The path of a route's prefix: the first netmask-length bits of its
      masked network. */
  function RoutePath(r: Route): (p: seq<Bit>)
    requires ValidRoute(r)
    ensures Fits(r, p)
  {
    var len := Length(r);
    var p := PathBits(IpPrefixInt(r.network, len), len);
    forall i | 0 <= i < len
      ensures BitAt(IpToInt(r.network), i) == p[i]
    {
      IpPrefixBits(r.network, len, i);
    }
    p
  }

  // ----- search

  /** Trie.search: from the root, for i in 0 .. 31, remember the route of
      the current node and follow bit i of the address, stopping at a
      missing child. The node reached after 32 steps is never looked at. */
  function Search(root: Node, address: string): Option<Route>
    requires DottedDecimal(address)
  {
    SearchFrom(root, IpToInt(address), 0, None)
  }

  function SearchFrom(n: Node, v: nat, i: nat, best: Option<Route>): Option<Route>
    requires i <= 32
    decreases 32 - i
  {
    if i == 32 then best
    else
      var best' := if n.routeInfo.Some? then n.routeInfo else best;
      match Child(n, BitAt(v, i))
      case None => best'
      case Some(c) => SearchFrom(c, v, i + 1, best')
  }

  /** search with the node at depth 32 looked at as well, so that a /32
      route can be found. */
  function SearchFixed(root: Node, address: string): Option<Route>
    requires DottedDecimal(address)
  {
    SearchFromFixed(root, IpToInt(address), 0, None)
  }

  function SearchFromFixed(n: Node, v: nat, i: nat, best: Option<Route>): Option<Route>
    requires i <= 32
    decreases 32 - i
  {
    var best' := if n.routeInfo.Some? then n.routeInfo else best;
    if i == 32 then best'
    else
      match Child(n, BitAt(v, i))
      case None => best'
      case Some(c) => SearchFromFixed(c, v, i + 1, best')
  }

  // ----- dump

  /** Trie.dump: a pre-order listing, the node's routes, then the subtree of
      child 0, then that of child 1. */
  function Dump(t: Node): seq<Route>
    decreases t
  {
    Stored(t)
    + (if t.zero.Some? then Dump(t.zero.value) else [])
    + (if t.one.Some? then Dump(t.one.value) else [])
  }

  // ----- Lemmas about insert

  /** Descending and placing a route at its own prefix keeps every route in
      place. */
  lemma {:induction false} DescendPlaced(t: Node, q: seq<Bit>, p: seq<Bit>, r: Route)
    requires Placed(t, q) && Fits(r, q + p)
    ensures Placed(Descend(t, p, r), q)
    decreases |p|
  {
    if |p| == 0 {
      assert q + p == q;
      PlacePlaced(t, q, r);
    } else {
      var b := p[0];
      var sub := OrEmpty(Child(t, b));
      assert Placed(sub, q + [b]) by { ChildPlaced(t, q, b); }
      FitsStep(r, q, p);
      DescendPlaced(sub, q + [b], p[1..], r);
      WithChildPlaced(t, q, b, Descend(sub, p[1..], r));
    }
  }

  lemma PlacePlaced(n: Node, q: seq<Bit>, r: Route)
    requires Placed(n, q) && Fits(r, q)
    ensures Placed(Place(n, r), q)
  {
    var res := Place(n, r);
    if n.routeInfo.Some? {
      var prev := n.routeInfo.value;
      var extra := if CompareRoutes(r, prev) then prev else r;
      assert res.alternatives == n.alternatives + [extra];
      forall a | a in res.alternatives
        ensures Fits(a, q)
      {
        if a !in n.alternatives {
          assert a == extra;
        }
      }
    }
  }

  lemma ChildPlaced(t: Node, q: seq<Bit>, b: Bit)
    requires Placed(t, q)
    ensures Placed(OrEmpty(Child(t, b)), q + [b])
  {
  }

  lemma WithChildPlaced(t: Node, q: seq<Bit>, b: Bit, c: Node)
    requires Placed(t, q) && Placed(c, q + [b])
    ensures Placed(WithChild(t, b, Some(c)), q)
  {
  }

  lemma {:induction false} EmptyNodeAt(q: seq<Bit>)
    ensures OrEmpty(NodeAt(Empty, q)) == Empty
  {
  }

  /** insert reaches the node of path p, creating it if needed, and places
      the route there. */
  lemma {:induction false} DescendAt(t: Node, p: seq<Bit>, r: Route)
    ensures NodeAt(Descend(t, p, r), p) == Some(Place(OrEmpty(NodeAt(t, p)), r))
    decreases |p|
  {
    if |p| > 0 {
      var sub := OrEmpty(Child(t, p[0]));
      DescendAt(sub, p[1..], r);
      if Child(t, p[0]).None? {
        EmptyNodeAt(p[1..]);
      }
    }
  }

  /** The nodes insert passes through exist afterwards and keep their own
      routes; a node created on the way has none. */
  lemma {:induction false} DescendOnPath(t: Node, p: seq<Bit>, r: Route, k: nat)
    requires k < |p|
    ensures NodeAt(Descend(t, p, r), p[..k]).Some?
    ensures NodeAt(Descend(t, p, r), p[..k]).value.routeInfo == OrEmpty(NodeAt(t, p[..k])).routeInfo
    ensures NodeAt(Descend(t, p, r), p[..k]).value.alternatives == OrEmpty(NodeAt(t, p[..k])).alternatives
    decreases k
  {
    if k > 0 {
      var sub := OrEmpty(Child(t, p[0]));
      assert p[..k][1..] == p[1..][..k - 1];
      DescendOnPath(sub, p[1..], r, k - 1);
      if Child(t, p[0]).None? {
        EmptyNodeAt(p[1..][..k - 1]);
      }
    }
  }

  /** Every node whose path is not a prefix of p, including every node below
      the end node, is the same after insert's descent. */
  lemma {:induction false} DescendOffPath(t: Node, p: seq<Bit>, r: Route, q: seq<Bit>)
    requires !IsPrefix(q, p)
    ensures NodeAt(Descend(t, p, r), q) == NodeAt(t, q)
    decreases |p|
  {
    if |p| > 0 && q[0] == p[0] {
      var sub := OrEmpty(Child(t, p[0]));
      assert !IsPrefix(q[1..], p[1..]);
      DescendOffPath(sub, p[1..], r, q[1..]);
      if Child(t, p[0]).None? {
        assert |q| > 1;
      }
    }
  }

  /** dump after insert's descent lists the same routes plus the new one. */
  lemma {:induction false} DumpDescend(t: Node, p: seq<Bit>, r: Route)
    requires NoHidden(t)
    ensures multiset(Dump(Descend(t, p, r))) == multiset(Dump(t)) + multiset{r}
    decreases |p|
  {
    if |p| == 0 {
      DumpPlace(t, r);
    } else {
      var b := p[0];
      var sub := OrEmpty(Child(t, b));
      var d := Descend(sub, p[1..], r);
      assert NoHidden(sub);
      DumpDescend(sub, p[1..], r);
      assert DumpOf(Child(t, b)) == Dump(sub) by {
        assert Dump(Empty) == [];
      }
      DumpWithChild(t, b, d);
      Cancel(multiset(Dump(WithChild(t, b, Some(d)))), multiset(Dump(t)), multiset(Dump(sub)), r);
    }
  }

  function DumpOf(n: Option<Node>): seq<Route>
  {
    if n.Some? then Dump(n.value) else []
  }

  lemma DumpPlace(t: Node, r: Route)
    requires t.routeInfo.None? ==> t.alternatives == []
    ensures multiset(Dump(Place(t, r))) == multiset(Dump(t)) + multiset{r}
  {
    var n := Place(t, r);
    DumpSplit(t);
    DumpSplit(n);
    GrowFront(Stored(t), Stored(n), DumpOf(t.zero), DumpOf(t.one), r);
  }

  lemma DumpSplit(t: Node)
    ensures Dump(t) == Stored(t) + DumpOf(t.zero) + DumpOf(t.one)
  {
  }

  lemma DumpWithChild(t: Node, b: Bit, c: Node)
    ensures multiset(Dump(WithChild(t, b, Some(c)))) + multiset(DumpOf(Child(t, b)))
            == multiset(Dump(t)) + multiset(Dump(c))
  {
    var n := WithChild(t, b, Some(c));
    DumpSplit(t);
    DumpSplit(n);
    assert Stored(n) == Stored(t);
    assert DumpOf(Some(c)) == Dump(c);
    if b == 0 {
      SwapMiddle(Stored(t), DumpOf(t.zero), DumpOf(t.one), Dump(c));
    } else {
      SwapLast(Stored(t), DumpOf(t.zero), DumpOf(t.one), Dump(c));
    }
  }

  lemma GrowFront<T>(s: seq<T>, s': seq<T>, z: seq<T>, o: seq<T>, r: T)
    requires multiset(s') == multiset(s) + multiset{r}
    ensures multiset(s' + z + o) == multiset(s + z + o) + multiset{r}
  {
  }

  lemma SwapMiddle<T>(s: seq<T>, z: seq<T>, o: seq<T>, d: seq<T>)
    ensures multiset(s + d + o) + multiset(z) == multiset(s + z + o) + multiset(d)
  {
  }

  lemma SwapLast<T>(s: seq<T>, z: seq<T>, o: seq<T>, d: seq<T>)
    ensures multiset(s + z + d) + multiset(o) == multiset(s + z + o) + multiset(d)
  {
  }

  lemma Cancel<T>(a: multiset<T>, b: multiset<T>, c: multiset<T>, r: T)
    requires a + c == b + (c + multiset{r})
    ensures a == b + multiset{r}
  {
    forall x
      ensures a[x] == (b + multiset{r})[x]
    {
      assert (a + c)[x] == (b + (c + multiset{r}))[x];
    }
  }

  /** No node of t has alternatives without a preferred route. */
  predicate NoHidden(t: Node)
    decreases t
  {
    (t.routeInfo.None? ==> t.alternatives == [])
    && (t.zero.Some? ==> NoHidden(t.zero.value))
    && (t.one.Some? ==> NoHidden(t.one.value))
  }

  lemma {:induction false} PlacedNoHidden(t: Node, q: seq<Bit>)
    requires Placed(t, q)
    ensures NoHidden(t)
    decreases t
  {
    if t.zero.Some? {
      PlacedNoHidden(t.zero.value, q + [0]);
    }
    if t.one.Some? {
      PlacedNoHidden(t.one.value, q + [1]);
    }
  }

  /** A subtree of a placed tree is placed at its own path. */
  lemma {:induction false} PlacedAt(t: Node, q0: seq<Bit>, q: seq<Bit>)
    requires Placed(t, q0) && NodeAt(t, q).Some?
    ensures Placed(NodeAt(t, q).value, q0 + q)
    decreases |q|
  {
    if |q| == 0 {
      assert q0 + q == q0;
    } else {
      var c := NodeAtStep(t, q);
      ChildPlaced(t, q0, q[0]);
      PlacedAt(c, q0 + [q[0]], q[1..]);
      StepPath(q0, q);
    }
  }

  lemma StepPath(q0: seq<Bit>, q: seq<Bit>)
    requires |q| > 0
    ensures (q0 + [q[0]]) + q[1..] == q0 + q
  {
  }

  /** The first step of a non-empty path that leads somewhere. */
  lemma NodeAtStep(t: Node, q: seq<Bit>) returns (c: Node)
    requires |q| > 0 && NodeAt(t, q).Some?
    ensures Child(t, q[0]) == Some(c) && NodeAt(t, q) == NodeAt(c, q[1..])
  {
    c := Child(t, q[0]).value;
  }

  /** One more step down from the node at q. */
  lemma {:induction false} NodeAtSnoc(t: Node, q: seq<Bit>, b: Bit)
    ensures NodeAt(t, q + [b]) == if NodeAt(t, q).Some? then Child(NodeAt(t, q).value, b) else None
    decreases |q|
  {
    if |q| > 0 {
      assert (q + [b])[1..] == q[1..] + [b];
      if Child(t, q[0]).Some? {
        NodeAtSnoc(Child(t, q[0]).value, q[1..], b);
      }
    }
  }

  // ----- Lemmas about search

  function Pick(a: Option<Route>, b: Option<Route>): Option<Route>
  {
    if a.Some? then a else b
  }

  /** The route of the deepest route-carrying node on the path bits among
      depths lo .. hi - 1. */
  function Deepest(t: Node, bits: seq<Bit>, lo: nat, hi: nat): Option<Route>
    requires hi <= |bits| + 1
    decreases hi - lo
  {
    if lo >= hi then None
    else Pick(Deepest(t, bits, lo + 1, hi), RouteAt(t, bits[..lo]))
  }

  /** Past a missing node there are no routes. */
  lemma {:induction false} DeepestMissing(t: Node, bits: seq<Bit>, lo: nat, hi: nat)
    requires hi <= |bits| + 1 && lo <= |bits| && NodeAt(t, bits[..lo]).None?
    ensures Deepest(t, bits, lo, hi) == None
    decreases hi - lo
  {
    if lo < hi && lo < |bits| {
      assert bits[..lo + 1] == bits[..lo] + [bits[lo]];
      NodeAtSnoc(t, bits[..lo], bits[lo]);
      DeepestMissing(t, bits, lo + 1, hi);
    }
  }

  /** Deepest names the deepest route-carrying node: none exists exactly when
      it is None, and otherwise it is the route of some depth d with no
      route-carrying node below d up to hi. */
  lemma {:induction false} DeepestSpec(t: Node, bits: seq<Bit>, lo: nat, hi: nat)
    requires hi <= |bits| + 1
    ensures Deepest(t, bits, lo, hi).None? <==> forall d :: lo <= d < hi ==> RouteAt(t, bits[..d]).None?
    ensures Deepest(t, bits, lo, hi).Some? ==>
      exists d :: lo <= d < hi && RouteAt(t, bits[..d]) == Deepest(t, bits, lo, hi)
        && forall e :: d < e < hi ==> RouteAt(t, bits[..e]).None?
    decreases hi - lo
  {
    if lo < hi {
      DeepestSpec(t, bits, lo + 1, hi);
      if Deepest(t, bits, lo + 1, hi).None? && RouteAt(t, bits[..lo]).Some? {
        assert forall e :: lo < e < hi ==> RouteAt(t, bits[..e]).None?;
      }
    }
  }

  /** The path of an address: its 32 bits, most significant first. */
  function AddressBits(address: string): (bits: seq<Bit>)
    requires DottedDecimal(address)
    ensures |bits| == 32
  {
    PathBits(IpToInt(address), 32)
  }

  lemma {:induction false} SearchFromDeepest(t: Node, v: nat, i: nat, n: Node, best: Option<Route>)
    requires i <= 32 && NodeAt(t, PathBits(v, 32)[..i]) == Some(n)
    ensures SearchFrom(n, v, i, best) == Pick(Deepest(t, PathBits(v, 32), i, 32), best)
    decreases 32 - i
  {
    var bits := PathBits(v, 32);
    if i < 32 {
      assert bits[..i + 1] == bits[..i] + [bits[i]];
      NodeAtSnoc(t, bits[..i], bits[i]);
      var best' := Pick(RouteAt(t, bits[..i]), best);
      match Child(n, BitAt(v, i))
      case None =>
        DeepestMissing(t, bits, i + 1, 32);
      case Some(c) =>
        SearchFromDeepest(t, v, i + 1, c, best');
    }
  }

  lemma {:induction false} SearchFromFixedDeepest(t: Node, v: nat, i: nat, n: Node, best: Option<Route>)
    requires i <= 32 && NodeAt(t, PathBits(v, 32)[..i]) == Some(n)
    ensures SearchFromFixed(n, v, i, best) == Pick(Deepest(t, PathBits(v, 32), i, 33), best)
    decreases 32 - i
  {
    var bits := PathBits(v, 32);
    if i < 32 {
      assert bits[..i + 1] == bits[..i] + [bits[i]];
      NodeAtSnoc(t, bits[..i], bits[i]);
      var best' := Pick(RouteAt(t, bits[..i]), best);
      match Child(n, BitAt(v, i))
      case None =>
        DeepestMissing(t, bits, i + 1, 33);
      case Some(c) =>
        SearchFromFixedDeepest(t, v, i + 1, c, best');
    }
  }

  /** search returns the route of the deepest route-carrying node on the
      address's path among depths 0 .. 31, and None when there is none. */
  lemma SearchDeepest(t: Node, address: string)
    requires DottedDecimal(address)
    ensures Search(t, address).None? <==>
      forall d :: 0 <= d < 32 ==> RouteAt(t, AddressBits(address)[..d]).None?
    ensures Search(t, address).Some? ==>
      exists d :: 0 <= d < 32 && RouteAt(t, AddressBits(address)[..d]) == Search(t, address)
        && forall e :: d < e < 32 ==> RouteAt(t, AddressBits(address)[..e]).None?
  {
    var bits := AddressBits(address);
    assert bits[..0] == [];
    SearchFromDeepest(t, IpToInt(address), 0, t, None);
    DeepestSpec(t, bits, 0, 32);
  }

  /** The corrected search does the same over depths 0 .. 32. */
  lemma SearchFixedDeepest(t: Node, address: string)
    requires DottedDecimal(address)
    ensures SearchFixed(t, address).None? <==>
      forall d :: 0 <= d <= 32 ==> RouteAt(t, AddressBits(address)[..d]).None?
    ensures SearchFixed(t, address).Some? ==>
      exists d :: 0 <= d <= 32 && RouteAt(t, AddressBits(address)[..d]) == SearchFixed(t, address)
        && forall e :: d < e <= 32 ==> RouteAt(t, AddressBits(address)[..e]).None?
  {
    var bits := AddressBits(address);
    assert bits[..0] == [];
    SearchFromFixedDeepest(t, IpToInt(address), 0, t, None);
    DeepestSpec(t, bits, 0, 33);
  }

  /** In a trie built by insert, the route search returns matches the
      address: its prefix is shorter than 32 bits and every prefix bit
      agrees with the address. */
  lemma SearchMatches(t: Node, address: string)
    requires Placed(t, []) && DottedDecimal(address) && Search(t, address).Some?
    ensures var r := Search(t, address).value;
      ValidRoute(r) && Length(r) < 32
      && forall i :: 0 <= i < Length(r) ==> BitAt(IpToInt(r.network), i) == BitAt(IpToInt(address), i)
  {
    var bits := AddressBits(address);
    SearchDeepest(t, address);
    var d :| 0 <= d < 32 && RouteAt(t, bits[..d]) == Search(t, address);
    RouteAtFits(t, bits, d);
    FitsAddress(Search(t, address).value, address, d);
  }

  /** The same for the corrected search, with prefixes up to 32 bits. */
  lemma SearchFixedMatches(t: Node, address: string)
    requires Placed(t, []) && DottedDecimal(address) && SearchFixed(t, address).Some?
    ensures var r := SearchFixed(t, address).value;
      ValidRoute(r) && Length(r) <= 32
      && forall i :: 0 <= i < Length(r) ==> BitAt(IpToInt(r.network), i) == BitAt(IpToInt(address), i)
  {
    var bits := AddressBits(address);
    SearchFixedDeepest(t, address);
    var d :| 0 <= d <= 32 && RouteAt(t, bits[..d]) == SearchFixed(t, address);
    RouteAtFits(t, bits, d);
    FitsAddress(SearchFixed(t, address).value, address, d);
  }

  /** The route at a node of a placed trie belongs at that node's path. */
  lemma RouteAtFits(t: Node, bits: seq<Bit>, d: nat)
    requires Placed(t, []) && d <= |bits| && RouteAt(t, bits[..d]).Some?
    ensures Fits(RouteAt(t, bits[..d]).value, bits[..d])
  {
    PlacedAt(t, [], bits[..d]);
    assert [] + bits[..d] == bits[..d];
  }

  /** A route that belongs at the first d bits of an address matches it. */
  lemma FitsAddress(r: Route, address: string, d: nat)
    requires DottedDecimal(address) && d <= 32 && Fits(r, AddressBits(address)[..d])
    ensures ValidRoute(r) && Length(r) == d
    ensures forall i :: 0 <= i < Length(r) ==> BitAt(IpToInt(r.network), i) == BitAt(IpToInt(address), i)
  {
    var bits := AddressBits(address);
    forall i | 0 <= i < d
      ensures BitAt(IpToInt(r.network), i) == BitAt(IpToInt(address), i)
    {
      assert bits[..d][i] == bits[i];
    }
  }

  // ----- A host route

  /** Inserting into an empty trie builds a single chain of nodes, where no
      node has a sibling, so aggregate merges nothing. */
  lemma {:induction false} AggregateChain(p: seq<Bit>, r: Route, q: seq<Bit>)
    requires Fits(r, q + p)
    ensures Placed(Descend(Empty, p, r), q)
    ensures AggregateAlong(Descend(Empty, p, r), p, q).0 == Descend(Empty, p, r)
    decreases |p|
  {
    DescendPlaced(Empty, q, p, r);
    if |p| > 0 {
      var b, p', q' := p[0], p[1..], q + [p[0]];
      FitsStep(r, q, p);
      AggregateChain(p', r, q');
      var t, c := Descend(Empty, p, r), Descend(Empty, p', r);
      assert Child(t, b) == Some(c) && Child(t, Sibling(b)).None? by {
        assert t == WithChild(Empty, b, Some(c));
      }
      AggregateNoSibling(t, p, q);
    }
  }

  /** A walk node without a sibling merges nothing: when the walk below
      leaves the child unchanged, it leaves t unchanged. */
  lemma AggregateNoSibling(t: Node, p: seq<Bit>, q: seq<Bit>)
    requires Placed(t, q) && |p| > 0
    requires Child(t, p[0]).Some? && Child(t, Sibling(p[0])).None?
    requires Placed(Child(t, p[0]).value, q + [p[0]])
    requires AggregateAlong(Child(t, p[0]).value, p[1..], q + [p[0]]).0 == Child(t, p[0]).value
    ensures AggregateAlong(t, p, q).0 == t
  {
    var c := Child(t, p[0]).value;
    assert WithChild(t, p[0], Some(c)) == t;
  }

  /** Inserting into an empty trie places the route at the end of its
      path and nothing anywhere else along it. */
  lemma ChainRoutes(p: seq<Bit>, r: Route, d: nat)
    requires d <= |p|
    ensures RouteAt(Descend(Empty, p, r), p[..d]) == if d == |p| then Some(r) else None
  {
    if d < |p| {
      DescendOnPath(Empty, p, r, d);
      EmptyNodeAt(p[..d]);
    } else {
      assert p[..d] == p;
      DescendAt(Empty, p, r);
      EmptyNodeAt(p);
    }
  }

  /** After inserting one route into an empty trie, the end node of its
      path holds it and no node above does. */
  lemma InsertAlone(r: Route, d: nat)
    requires ValidRoute(r) && d <= |RoutePath(r)|
    ensures RouteAt(Insert(Empty, r), RoutePath(r)[..d])
            == if d == |RoutePath(r)| then Some(r) else None
  {
    InsertEmpty(r);
    ChainRoutes(RoutePath(r), r, d);
  }

  /** Insert into an empty trie is the descent alone. */
  lemma InsertEmpty(r: Route)
    requires ValidRoute(r)
    ensures Insert(Empty, r) == Descend(Empty, RoutePath(r), r)
  {
    var p := RoutePath(r);
    AggregateChain(p, r, []);
    assert [] + p == p;
  }

  /** The path of a /32 route is its whole address. */
  lemma HostRoutePath(r: Route)
    requires ValidRoute(r) && Length(r) == 32
    ensures AddressBits(r.network) == RoutePath(r)
  {
    var p, bits := RoutePath(r), AddressBits(r.network);
    assert forall i :: 0 <= i < 32 ==> p[i] == bits[i];
  }

  /** A /32 route inserted into an empty trie: search does not find it for
      its own address, while the corrected search does. */
  lemma HostRouteMissed(r: Route)
    requires ValidRoute(r) && Length(r) == 32
    ensures Search(Insert(Empty, r), r.network) == None
    ensures SearchFixed(Insert(Empty, r), r.network) == Some(r)
  {
    var p := RoutePath(r);
    var t := Insert(Empty, r);
    InsertEmpty(r);
    HostRoutePath(r);
    var bits := AddressBits(r.network);
    forall d | 0 <= d < 32
      ensures RouteAt(t, bits[..d]) == None
    {
      ChainRoutes(p, r, d);
    }
    assert RouteAt(t, bits[..32]) == Some(r) by {
      ChainRoutes(p, r, 32);
    }
    SearchDeepest(t, r.network);
    FixedAtHost(t, r.network);
  }

  /** A route at depth 32 on the address's path is what the corrected
      search returns. */
  lemma FixedAtHost(t: Node, address: string)
    requires DottedDecimal(address) && RouteAt(t, AddressBits(address)[..32]).Some?
    ensures SearchFixed(t, address) == RouteAt(t, AddressBits(address)[..32])
  {
    SearchFixedDeepest(t, address);
  }
}
