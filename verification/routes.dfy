/** Route records of the BGP router's forwarding table and the three static
    helpers of bgp-router/Trie.py that look at them: the preference order
    (a simplified form of the decision process of section 9.1 of RFC 4271),
    the "same attributes" test that allows two adjacent prefixes to be merged,
    and the route a merge produces. */
module Routes {
  import opened Bits
  import opened Text
  import opened IpAddr

  /** The origin attribute of a route update. */
  datatype Origin = IGP | EGP | UNK

  /** One entry of the forwarding table: the route dictionary of an update
      message, with its "network", "netmask", "peer", "localpref",
      "selfOrigin", "ASPath" and "origin" keys. */
  datatype Route = Route(
    network: string,
    netmask: string,
    peer: string,
    localpref: int,
    selfOrigin: bool,
    asPath: seq<nat>,
    origin: Origin)

  /** The addresses parse as Python does them, and the netmask has at most
      32 one-bits, so that `ip_prefix_int` can shift by `32 - length`. */
  predicate ValidRoute(r: Route)
  {
    DottedDecimal(r.network) && DottedDecimal(r.netmask) && NetmaskLength(r.netmask) <= 32
  }

  /** The prefix length of a route. */
  function Length(r: Route): nat
    requires DottedDecimal(r.netmask)
  {
    NetmaskLength(r.netmask)
  }

  // ----- Python string order

  /** Python `a < b` on strings: lexicographic on character codes, a proper
      prefix before the longer string. */
  predicate StrLess(a: string, b: string)
    decreases |a|
  {
    if |b| == 0 then false
    else if |a| == 0 then true
    else if a[0] != b[0] then a[0] < b[0]
    else StrLess(a[1..], b[1..])
  }

  lemma {:induction false} StrLessAsymmetric(a: string, b: string)
    requires StrLess(a, b)
    ensures !StrLess(b, a)
    decreases |a|
  {
    if |a| > 0 && a[0] == b[0] {
      StrLessAsymmetric(a[1..], b[1..]);
    }
  }

  lemma {:induction false} StrLessTotal(a: string, b: string)
    requires a != b
    ensures StrLess(a, b) || StrLess(b, a)
    decreases |a|
  {
    if |a| > 0 && |b| > 0 && a[0] == b[0] {
      assert a == [a[0]] + a[1..] && b == [b[0]] + b[1..];
      StrLessTotal(a[1..], b[1..]);
    }
  }

  lemma {:induction false} StrLessTransitive(a: string, b: string, c: string)
    requires StrLess(a, b) && StrLess(b, c)
    ensures StrLess(a, c)
    decreases |a|
  {
    if |a| > 0 && a[0] == b[0] && b[0] == c[0] {
      StrLessTransitive(a[1..], b[1..], c[1..]);
    }
  }

  // ----- Route preference

  /** The origin_preference table: IGP over EGP over UNK. */
  function OriginRank(o: Origin): (rank: nat)
    ensures 1 <= rank <= 3
  {
    match o
    case IGP => 3
    case EGP => 2
    case UNK => 1
  }

  /** compare_routes: true when r1 is preferred to r2. Higher localpref
      first, then self-originated, then the shorter AS path, then the better
      origin, and last the smaller peer address as text. */
  function CompareRoutes(r1: Route, r2: Route): (prefer: bool)
    ensures prefer ==> r1.localpref >= r2.localpref
    ensures prefer && r1.localpref == r2.localpref ==> r1.selfOrigin || !r2.selfOrigin
  {
    if r1.localpref != r2.localpref then r1.localpref > r2.localpref
    else if r1.selfOrigin != r2.selfOrigin then r1.selfOrigin
    else if |r1.asPath| != |r2.asPath| then |r1.asPath| < |r2.asPath|
    else if r1.origin != r2.origin then OriginRank(r1.origin) > OriginRank(r2.origin)
    else StrLess(r1.peer, r2.peer)
  }

  /** The five compared attributes agree, so neither route is preferred. */
  predicate SameRank(r1: Route, r2: Route)
  {
    r1.localpref == r2.localpref && r1.selfOrigin == r2.selfOrigin
    && |r1.asPath| == |r2.asPath| && r1.origin == r2.origin && r1.peer == r2.peer
  }

  lemma OriginRankInjective(a: Origin, b: Origin)
    requires a != b
    ensures OriginRank(a) != OriginRank(b)
  {
  }

  /** A route is never preferred to one that is preferred to it. */
  lemma CompareAsymmetric(r1: Route, r2: Route)
    requires CompareRoutes(r1, r2)
    ensures !CompareRoutes(r2, r1)
  {
    if SameRankUpToPeer(r1, r2) {
      StrLessAsymmetric(r1.peer, r2.peer);
    }
  }

  predicate SameRankUpToPeer(r1: Route, r2: Route)
  {
    r1.localpref == r2.localpref && r1.selfOrigin == r2.selfOrigin
    && |r1.asPath| == |r2.asPath| && r1.origin == r2.origin
  }

  /** Of two routes that differ in some compared attribute (in particular in
      their peer), one is preferred. */
  lemma CompareTotal(r1: Route, r2: Route)
    ensures CompareRoutes(r1, r2) || CompareRoutes(r2, r1) || SameRank(r1, r2)
  {
    if SameRankUpToPeer(r1, r2) && r1.peer != r2.peer {
      StrLessTotal(r1.peer, r2.peer);
    } else if !SameRankUpToPeer(r1, r2) && r1.origin != r2.origin {
      OriginRankInjective(r1.origin, r2.origin);
    }
  }

  /** For two routes from different peers exactly one is preferred. */
  lemma CompareExactlyOne(r1: Route, r2: Route)
    requires r1.peer != r2.peer
    ensures CompareRoutes(r1, r2) != CompareRoutes(r2, r1)
  {
    CompareTotal(r1, r2);
    if CompareRoutes(r1, r2) {
      CompareAsymmetric(r1, r2);
    }
  }

  /** Preference is transitive. */
  lemma CompareTransitive(r1: Route, r2: Route, r3: Route)
    requires CompareRoutes(r1, r2) && CompareRoutes(r2, r3)
    ensures CompareRoutes(r1, r3)
  {
    if SameRankUpToPeer(r1, r2) && SameRankUpToPeer(r2, r3) {
      StrLessTransitive(r1.peer, r2.peer, r3.peer);
    }
  }

  // ----- Aggregation

  /** can_aggregate: same next hop and same attributes. */
  function CanAggregate(r1: Route, r2: Route): bool
  {
    r1.peer == r2.peer && r1.asPath == r2.asPath && r1.localpref == r2.localpref
    && r1.origin == r2.origin && r1.selfOrigin == r2.selfOrigin
  }

  /** can_aggregate is an equivalence: reflexive, symmetric and transitive. */
  lemma CanAggregateEquivalence(r1: Route, r2: Route, r3: Route)
    ensures CanAggregate(r1, r1)
    ensures CanAggregate(r1, r2) ==> CanAggregate(r2, r1)
    ensures CanAggregate(r1, r2) && CanAggregate(r2, r3) ==> CanAggregate(r1, r3)
  {
  }

  /** aggregate_info: a copy of the route one bit shorter, its network masked
      to the shorter prefix and its netmask printed for the shorter length;
      every other field is copied. */
  function AggregateInfo(route: Route): (r: Route)
    requires ValidRoute(route) && Length(route) >= 1
    ensures ValidRoute(r) && CanonicalIpv4(r.network) && CanonicalIpv4(r.netmask)
    ensures Length(r) == Length(route) - 1
    ensures IpToInt(r.network) == IpPrefixInt(route.network, Length(route) - 1) % Word
    ensures r.(network := route.network, netmask := route.netmask) == route
    ensures CanAggregate(r, route)
  {
    var len := Length(route) - 1;
    route.(network := IpPrefix(route.network, len), netmask := PrefixToNetmask(len))
  }

  /** The network of an aggregated route keeps the first L - 1 bits of the
      original network and is zero after them. */
  lemma AggregateInfoBits(route: Route, i: nat)
    requires ValidRoute(route) && Length(route) >= 1 && i < 32
    ensures BitAt(IpToInt(AggregateInfo(route).network), i)
            == if i < Length(route) - 1 then BitAt(IpToInt(route.network), i) else 0
  {
    var len := Length(route) - 1;
    BitAtMod(IpPrefixInt(route.network, len), i);
    IpPrefixBits(route.network, len, i);
  }
}
