# Router, Wordle and FTP client cores in Dafny

This project models three small pieces of logic from one repository of
network programs and proves properties about them:

- **The BGP router's IPv4 helpers and forwarding table.** The helpers are
  in `bgp-router/ip_addr.py` and the table is in `bgp-router/Trie.py`.
  - Dotted-quad text converts to and from a 32-bit number.
  - An address can be rendered in binary, and a netmask gives a prefix
    length.
  - A prefix length gives back a netmask, as in CIDR notation
    (section 3.1 of RFC 4632).
  - The table is a binary trie. Each node stands for a prefix and holds a
    preferred route plus its alternatives.
  - Inserting a route walks down the route's prefix bits, places the route
    and then merges sibling prefixes upwards.
  - Search walks an address's bits and remembers the deepest route it
    meets.
  - Routes are ranked by a simplified form of the decision process of
    section 9.1 of RFC 4271.
- **The Wordle client's candidate filter and feedback update**
  (`choose_word` and `handle_marks` in `wordle/client.cpp`).
- **The FTP client's command-line parser** (`parse_command` in
  `ftp/ftp_client.cpp`).

Modules:

- `Bits` (bits.dfy): Python's shifts and `&` on non-negative integers, and
  the bit arithmetic behind them.
- `Text` (text.dfy): the Python string builtins that the helpers use:
  - `str` and `int`;
  - `bin(n)[2:]`;
  - `zfill`, `count`, `split` and `join`.
- `Wrappers` (wrappers.dfy): `Option`.
- `IpAddr` (ip_addr.dfy): every function of `ip_addr.py`.
- `Routes` (routes.dfy): the route record, `compare_routes`,
  `can_aggregate` and `aggregate_info`.
- `Trie` (trie.dfy): `TrieNode`, `insert`, `aggregate`, `search` and
  `dump`.
- `Wordle` (wordle.dfy): `choose_word`, `handle_marks` and a corrected
  `handle_marks`.
- `Ftp` (ftp.dfy): `parse_command`.

A Python dictionary route becomes the datatype `Routes.Route`. A trie node
becomes an immutable `Trie.Node`. Python's parent pointers and stored
`bit` fields are replaced by a node's path from the root. Python `insert`
descends, places the route and then walks back up through the parents.
Here that upward walk is the return path of the recursion in
`Trie.AggregateAlong`.

## Model

| member | source | states |
|---|---|---|
| IpAddr.IpToIntValue | bgp-router/ip_addr.py:23-28 | For a four-quad address with quads a, b, c, d in 0..255, ip_to_int is a·2^24 + b·2^16 + c·2^8 + d and is below 2^32. |
| IpAddr.IntToIp | bgp-router/ip_addr.py:30-35 | int_to_ip always prints four dot-separated decimal pieces. |
| IpAddr.IntToIpQuads | bgp-router/ip_addr.py:30-35 | The pieces of int_to_ip(n) are the four low bytes of n, most significant first. Bits above the 32nd are dropped. |
| IpAddr.IntToIpRoundTrip | bgp-router/ip_addr.py:23-35 | int_to_ip prints a canonical address (no leading zeros, quads 0..255), and ip_to_int reads it back as n mod 2^32. |
| IpAddr.IpToIntOfIntToIp | bgp-router/ip_addr.py:23-35 | For n < 2^32, ip_to_int(int_to_ip(n)) == n. |
| IpAddr.IntToIpOfIpToInt | bgp-router/ip_addr.py:23-35 | For a canonical dotted quad s, int_to_ip(ip_to_int(s)) == s. |
| IpAddr.BinaryAddrGroups | bgp-router/ip_addr.py:3-6 | binary_addr of an address is four groups of eight binary digits joined by dots. Group i read in base 2 is quad i. |
| IpAddr.NetmaskLengthIsPopcount | bgp-router/ip_addr.py:8-9 | netmask_length is the total number of one-bits of the quads. |
| IpAddr.NetmaskLengthOfIntToIp | bgp-router/ip_addr.py:8-9 | The netmask length of int_to_ip(n) is the number of one-bits in the low 32 bits of n. |
| IpAddr.CidrRepr | bgp-router/ip_addr.py:11-13 | cidr_repr is the network text, then '/', then the decimal count of one-bits in the netmask's quads. |
| IpAddr.CidrOfPrefix | bgp-router/ip_addr.py:11-13 | The CIDR text for a network and the netmask of length L splits at '/' into the network and the decimal L. |
| IpAddr.IpPrefixInt | bgp-router/ip_addr.py:15-18 | Masking with 0xFFFFFFFF << (32 - L) keeps only bits 32-L .. 63-L of the number, and it never exceeds ip_to_int of the network. |
| IpAddr.IpPrefixBits | bgp-router/ip_addr.py:15-18 | ip_prefix_int keeps the top L bits of the address and clears bits L .. 31. |
| IpAddr.IpPrefixValue | bgp-router/ip_addr.py:15-18 | For an IPv4 address, ip_prefix_int is the address minus its remainder modulo 2^(32-L). |
| IpAddr.IpPrefixFull | bgp-router/ip_addr.py:15-18 | With L = 32, ip_prefix_int is the identity. |
| IpAddr.IpPrefixEmpty | bgp-router/ip_addr.py:15-18 | With L = 0, ip_prefix_int is 0. |
| IpAddr.IpPrefixIdempotent | bgp-router/ip_addr.py:15-21 | Masking the printed prefix again to the same length changes nothing. |
| IpAddr.IpPrefixIsNetmaskAnd | bgp-router/ip_addr.py:15-18 | ip_prefix_int is the address ANDed with the netmask that prefix_to_netmask gives for the same L. |
| IpAddr.IpPrefix | bgp-router/ip_addr.py:20-21 | ip_prefix prints a canonical address whose value is the masked number mod 2^32. |
| IpAddr.NetmaskBits | bgp-router/ip_addr.py:37-38 | The mask is L one-bits followed by 32 - L zero-bits. It is below 2^32 and has exactly L one-bits. |
| IpAddr.PrefixToNetmask | bgp-router/ip_addr.py:37-39 | prefix_to_netmask(L) is a canonical address whose value is that mask. netmask_length(prefix_to_netmask(L)) == L. |
| Text.SplitJoin | bgp-router/ip_addr.py:35 | Splitting a dot-join of dot-free pieces gives the pieces back. |
| Text.JoinSplit | bgp-router/ip_addr.py:4 | Joining the pieces of a split gives the string back. |
| Text.CountOnesBinStr | bgp-router/ip_addr.py:5-9 | The '1' digits of bin(n)[2:] are the one-bits of n. |
| Text.ParseDigitsOfDigits | bgp-router/ip_addr.py:24 | int(str(n)) == n. |
| Text.DigitsOfParseDigits | bgp-router/ip_addr.py:33 | str(int(s)) == s for a digit string without leading zeros. |
| Routes.CompareRoutes | bgp-router/Trie.py:108-127 | A preferred route has localpref at least as high as the other route's. At equal localpref it is self-originated, or the other route is not. |
| Routes.CompareAsymmetric | bgp-router/Trie.py:108-127 | No two routes are each preferred to the other. |
| Routes.CompareTotal | bgp-router/Trie.py:108-127 | Of two routes, one is preferred unless all five compared attributes agree. |
| Routes.CompareExactlyOne | bgp-router/Trie.py:108-127 | For two routes from different peers, exactly one of compare(r1,r2) and compare(r2,r1) holds. |
| Routes.CompareTransitive | bgp-router/Trie.py:108-127 | Preference is transitive. |
| Routes.StrLessTransitive | bgp-router/Trie.py:127 | Python's ordering on peer strings is transitive. |
| Routes.StrLessTotal | bgp-router/Trie.py:127 | Two different peer strings are ordered one way or the other. |
| Routes.CanAggregateEquivalence | bgp-router/Trie.py:87-94 | can_aggregate is reflexive, symmetric and transitive. |
| Routes.AggregateInfo | bgp-router/Trie.py:97-105 | The aggregate route:<br>- has prefix length one less and a canonical network and netmask;<br>- its network is the original masked to the shorter length;<br>- every other field is copied, so it can still be aggregated with the original. |
| Routes.AggregateInfoBits | bgp-router/Trie.py:97-105 | The aggregate network keeps the first L-1 bits of the original and has zeros after them. |
| Trie.Place | bgp-router/Trie.py:38-45 | At the end node:<br>- the route becomes the preferred one exactly when there was none or compare_routes prefers it, and otherwise the previous preferred one stays;<br>- the stored routes grow by exactly the new route, as a multiset;<br>- the earlier alternatives keep their order and the displaced route is appended after them. |
| Trie.PlaceUnbeaten | bgp-router/Trie.py:38-45 | After placing, no alternative is preferred to the node's route, given that this held before. |
| Trie.Descend | bgp-router/Trie.py:30-45 | A descent of at least one level leaves the route and alternatives of the node it starts from unchanged. |
| Trie.DescendAt | bgp-router/Trie.py:30-45 | After the descent, the node at the route's path exists and is the old node, or a fresh one, with the route placed. |
| Trie.DescendOnPath | bgp-router/Trie.py:30-36 | Every node on the path exists afterwards and keeps its routes. A node created on the way has none. |
| Trie.DescendOffPath | bgp-router/Trie.py:30-36 | Every node whose path is not a prefix of the route's path is unchanged, including every node below the end node. |
| Trie.DescendPlaced | bgp-router/Trie.py:30-45 | Descending and placing a route at its own prefix keeps every route of the trie at the node of its own prefix. |
| Trie.RoutePath | bgp-router/Trie.py:27-32 | The path insert follows has netmask-length bits, and each is the corresponding bit of the route's network. |
| Trie.AggregateAlong | bgp-router/Trie.py:70-83 | Every route that remains sits at the node of its own prefix, and the walk never changes alternatives. A level that stops the walk keeps its route. A level that merges has no children, and its sibling's route can be aggregated with the merged one. |
| Trie.Widen | bgp-router/Trie.py:97-105 | Applying aggregate_info n times gives a route n bits shorter that can still be aggregated with the original. |
| Trie.AggregateMerges | bgp-router/Trie.py:68-81 | Starting at the end node of a route x, the walk reaches the top exactly when every sibling along the path has a route with x's attributes. It then leaves x widened by the path length at the top. |
| Trie.AggregateStops | bgp-router/Trie.py:68-81 | The walk stops at the deepest level whose sibling has no route with x's attributes. The walk node one level below it holds x widened once per merged level, and the nodes from the root down to the stopping level keep their routes. Every node neither on the path down to that walk node nor below it is unchanged. After at least one merge, that walk node has no children. |
| Trie.AggregateFits | bgp-router/Trie.py:97-105 | The aggregate of a route one level down belongs at the parent's prefix. |
| Trie.AggregateChain | bgp-router/Trie.py:70-83 | On a chain without siblings, which is what insert into an empty trie builds, the walk merges nothing. |
| Trie.Insert | bgp-router/Trie.py:22-48 | insert keeps every route of the trie at the node of its own prefix. |
| Trie.InsertEmpty | bgp-router/Trie.py:22-48 | Insert into an empty trie is the descent alone. |
| Trie.ChainRoutes | bgp-router/Trie.py:30-45 | In a trie that was empty, only the end node of the path holds a route after insert's descent to that node. |
| Trie.InsertAlone | bgp-router/Trie.py:30-48 | In a trie that was empty, only the end node of the new route's path holds a route after insert, since the walk that follows merges nothing. |
| Trie.SearchDeepest | bgp-router/Trie.py:51-67 | search returns the route of the deepest route-carrying node on the address's path among depths 0..31, and None exactly when there is none. |
| Trie.SearchMatches | bgp-router/Trie.py:51-67 | In a trie built by insert, a route that search returns is shorter than 32 bits, and each of its prefix bits agrees with the address. |
| Trie.HostRouteMissed | bgp-router/Trie.py:60 | A /32 route inserted into an empty trie is not found by search for its own address. The corrected search finds it. |
| Trie.SearchFixedDeepest | bgp-router/Trie.py:51-67 | The corrected search returns the deepest route-carrying node's route over depths 0..32. |
| Trie.SearchFixedMatches | bgp-router/Trie.py:51-67 | A route that the corrected search returns matches the address on all of its prefix bits, up to 32. |
| Trie.DumpDescend | bgp-router/Trie.py:130-146 | After insert's descent, dump lists the old routes plus the new one, as a multiset. |
| Trie.DumpPlace | bgp-router/Trie.py:130-146 | Placing a route adds exactly that route to dump's listing. |
| Trie.PlacedNoHidden | bgp-router/Trie.py:136-139 | In a trie built by insert, no node has alternatives without a preferred route, so dump lists every stored route. |
| Wordle.CheckAbsent | wordle/client.cpp:262-271 | The first filter passes exactly when no letter of the word is in nonexist. |
| Wordle.CheckCorrect | wordle/client.cpp:273-284 | The second filter passes exactly when, for every recorded letter, each of its indices is in 0..LEN-1 and holds that letter. |
| Wordle.CheckPosition | wordle/client.cpp:286-304 | The third filter passes exactly when each letter of position occurs in the word and is at none of its in-range indices. |
| Wordle.ChooseWord | wordle/client.cpp:257-310 | Returns the first word in list order that passes all three filters. Returns "" exactly when none passes. |
| Wordle.Push | wordle/client.cpp:318 | m[c].push_back(i) adds key c and appends i to its list. Every other entry is unchanged. |
| Wordle.RecordCorrectSpec | wordle/client.cpp:315-320 | The first loop appends to correct[c] exactly the indices holding c with mark 2, in increasing order. |
| Wordle.WhereIncreasing | wordle/client.cpp:315-331 | The indices appended for a letter are in increasing order. |
| Wordle.RecordOthersSpec | wordle/client.cpp:321-331 | In the second loop, a 0 adds the letter to nonexist only when it is not yet in correct, and otherwise appends the index to position. A 1 appends to position. Other marks do nothing. |
| Wordle.HandleMarks | wordle/client.cpp:312-332 | handle_marks only adds: every entry of correct, nonexist and position survives, and the lists only grow at the end. |
| Wordle.HandleMarksSpec | wordle/client.cpp:312-332 | Letter by letter, the effect on the three constraints. A letter counts as known present exactly when correct holds it after the first loop. |
| Wordle.MixedMarksConflict | wordle/client.cpp:321-331 | A letter marked 1 at one index and 0 at another, with no 2 and not already in correct, lands in both nonexist and position. |
| Wordle.SpeedMarksBothWays | wordle/client.cpp:321-331 | For guess "speed" with marks 0 0 1 0 0, 'e' lands in both nonexist and position. |
| Wordle.DuplicateLetterRejectsAll | wordle/client.cpp:312-332 | These marks are ones a server could give for the secret "crane", which passed the filters before. Afterwards no word at all passes the filters. |
| Wordle.HandleMarksFixedSpec | wordle/client.cpp:312-332 | The corrected update, letter by letter. It is as written, except that a letter marked 1 anywhere in the guess also counts as known present. |
| Wordle.HandleMarksFixed | wordle/client.cpp:312-332 | The corrected update also only adds. |
| Wordle.HandleMarksFixedSound | wordle/client.cpp:257-332 | Take a secret that passes the filters and marks consistent with it. After the corrected update, the secret still passes, and every correct entry is non-empty. |
| Ftp.ScanArgs | ftp/ftp_client.cpp:20-29 | The scanning loop keeps at most as many positionals as there are arguments, and none of them is a flag. |
| Ftp.ScanFlags | ftp/ftp_client.cpp:20-29 | help ends up set exactly when it was set on entry or some argument is -h/--help. The same holds for verbose with -v/--verbose. |
| Ftp.ScanMembers | ftp/ftp_client.cpp:20-29 | Every positional kept is one of the arguments. |
| Ftp.ScanAppend | ftp/ftp_client.cpp:20-29 | The positionals of a concatenation are those of each part, in order. |
| Ftp.ScanKeepsPositionals | ftp/ftp_client.cpp:20-29 | The scanning loop keeps exactly the non-flag arguments, in their original order, whatever the incoming flags. |
| Ftp.ParseByPositionals | ftp/ftp_client.cpp:31-41 | The call succeeds exactly when help is set or the positionals name a known operation with its exact number of parameters. The operation and parameters are then positionals 0, 1 and, for cp and mv, 2; otherwise param2 is "". |
| Ftp.ScanPositionals | ftp/ftp_client.cpp:20-29 | Flag-free arguments are kept as positionals, all of them and in order. |
| Ftp.ParseCommand | ftp/ftp_client.cpp:8-42 | parse_command:<br>- sets help and verbose exactly when asked to;<br>- returns true on help;<br>- on help or a false return, leaves operation and params untouched;<br>- on success, the operation is known and the params are positionals from argv, with param2 "" for a two-positional operation. |
| Ftp.CommandLine | ftp/ftp_client.cpp:10-17 | The typed command line has one entry for the program plus the operation's arity. |
| Ftp.ParseCommandLine | ftp/ftp_client.cpp:34-41 | Parsing the command line typed for a known operation with flag-free parameters gives back that operation and those parameters. |
| Ftp.VerboseAnywhere | ftp/ftp_client.cpp:24-25 | Inserting -v/--verbose anywhere after the program name only sets verbose. The result and every other output are unchanged. |
| Ftp.HelpWins | ftp/ftp_client.cpp:22-33 | A help flag anywhere makes the call return true and leaves operation and params untouched. |
| Ftp.WrongArity | ftp/ftp_client.cpp:34-37 | A known operation with the wrong number of parameters is rejected. |

## Left out

- Python exceptions on malformed input are left out:
  - `int()` on a non-digit quad;
  - a prefix length above 32, which makes the shift count negative.

  The model requires well-formed dotted quads (`IpAddr.DottedDecimal`) and lengths of at most 32. A route's netmask must have at most 32 one-bits (`Routes.ValidRoute`).
- Python's `int()` also accepts surrounding whitespace, a sign and underscores. Only plain digit strings are modelled.
- `Trie.Insert` states placement but not where each route ends up after an aggregation. Merging throws away the children and any earlier route of the parent, so dump does not keep every inserted route.
- `Trie.Dump` is the listing function itself. Its properties are stated through `Trie.DumpDescend` and `Trie.DumpPlace`, which cover insert's descent but not the aggregation walk.
- The Python `__str__` of the trie is left out because it is printing only.
- Routes.CompareRoutes: origins are only IGP, EGP and UNK. compare_routes raises KeyError when the two origins differ and one of them is some other string (bgp-router/Trie.py:125-126). That input cannot be expressed here.
- Python route dictionaries are truthy when non-empty. The model treats a present route as a present route, because a route dictionary is never empty.
- Wordle sockets, TLS, JSON messages, the word-list file, `parse_argv` and `main` are left out: they are I/O.
- `Wordle.ChooseWord` requires every word to be `LEN` letters long. C++ indexing past the end of a shorter word has no defined result.
- The Wordle constraint maps are modelled as Dafny maps and sets. std::map's ordered iteration does not affect any result.
- The file-level `verbose` flag of the FTP client is modelled as a field of `Ftp.Command`, given on entry and returned. `argc` is the length of `argv`.
- The FTP protocol engine is left out: connections, replies, passive mode, transfers and URL parsing. Only declarations of it exist in the repository, with no bodies to model.
- `print_help` and the FTP client's `main` are left out because they are console output.

## Findings

| source | as written | input that shows it | evidently intended | confidence | as-written member | corrected member |
|---|---|---|---|---|---|---|
| bgp-router/Trie.py:60 | `search` loops `for i in range(32)`. The node at depth 32, where a /32 route sits, is reached but its route is never read. | Insert a route with netmask 255.255.255.255 for network 10.0.0.1 into an empty trie, then search for 10.0.0.1. The result is None. | A longest-prefix match that also looks at depth 32. | high (not executed) | Trie.HostRouteMissed | Trie.SearchFixed (Trie.SearchFixedDeepest, Trie.SearchFixedMatches) |
| wordle/client.cpp:324-325 | A letter marked 0 goes into `nonexist` unless it has a mark-2 entry in `correct`. A letter marked 1 elsewhere in the same guess is still treated as absent. | Guess "speed" against secret "crane": marks 0 0 1 0 0. The first 'e' is marked 1 and the second 0. 'e' goes into both `nonexist` and `position`, so afterwards no word passes choose_word, the secret included. | A 0 on a letter that the guess marks 1 elsewhere only records a wrong position. | high (not executed) | Wordle.DuplicateLetterRejectsAll | Wordle.HandleMarksFixed (Wordle.HandleMarksFixedSound) |
