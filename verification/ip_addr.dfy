/** The IPv4 helpers of the BGP router (bgp-router/ip_addr.py): dotted-quad
    text to and from a 32-bit number, the binary rendering of an address,
    netmask length, prefix masking and the prefix-length-to-netmask
    conversion of CIDR notation (section 3.1 of RFC 4632). */
module IpAddr {
  import opened Bits
  import opened Text

  /** Python `0xFFFFFFFF`: thirty-two one-bits. */
  const FullMask: nat := 0xFFFF_FFFF
  /** 2^32, the size of the IPv4 address space. */
  const Word: nat := 0x1_0000_0000

  /** The dotted pieces of an address, as `ipv4.split('.')` gives them. */
  function Quads(s: string): seq<string>
  {
    Split(s, '.')
  }

  /** Every dotted piece is a non-empty run of decimal digits, so that
      Python's `int(quad)` accepts each of them. */
  predicate DottedDecimal(s: string)
  {
    forall i :: 0 <= i < |Quads(s)| ==> |Quads(s)[i]| >= 1 && DigitsIn(Quads(s)[i], 10)
  }

  /** The values `[int(quad) for quad in ipv4.split('.')]`. */
  function QuadValues(s: string): (vs: seq<nat>)
    requires DottedDecimal(s)
  {
    var qs := Quads(s);
    seq(|qs|, i requires 0 <= i < |qs| => ParseNat(qs[i]))
  }

  /** A four-quad address with every quad in 0..255. */
  predicate Ipv4(s: string)
  {
    DottedDecimal(s) && |Quads(s)| == 4
    && forall i :: 0 <= i < 4 ==> QuadValues(s)[i] < 256
  }

  /** An IPv4 address as `str` prints it: no quad has a leading zero. */
  predicate CanonicalIpv4(s: string)
  {
    Ipv4(s) && forall i :: 0 <= i < 4 ==> Canonical(Quads(s)[i], 10)
  }

  /** Byte i of num, counting from the least significant (i = 0): the low
      eight bits after shifting num right by 8 bits i times. */
  function Byte(num: nat, i: nat): (b: nat)
    ensures b < 256
  {
    if i == 0 then num % 256 else Byte(num / 256, i - 1)
  }

  /** The loop of ip_to_int: `ip_int = (ip_int << 8) + quad` for each quad. */
  function ShiftIn(vs: seq<nat>): nat
  {
    if |vs| == 0 then 0 else Shl(ShiftIn(vs[..|vs| - 1]), 8) + vs[|vs| - 1]
  }

  /** ip_to_int. */
  function IpToInt(s: string): nat
    requires DottedDecimal(s)
  {
    ShiftIn(QuadValues(s))
  }

  /** The list `addr` of int_to_ip after k rounds of
      `addr.append(str(num & 0xFF)); num >>= 8`. */
  function LowQuads(num: nat, k: nat): seq<string>
  {
    if k == 0 then [] else [NatToString(And(num, 0xFF))] + LowQuads(Shr(num, 8), k - 1)
  }

  /** int_to_ip: four rounds, then the list reversed and joined with dots.
      The result is four dotted pieces of decimal digits; IntToIpQuads says
      which. */
  function IntToIp(num: nat): (r: string)
    ensures DottedDecimal(r) && |Quads(r)| == 4
  {
    JoinedBytes(num);
    Join(Reverse(LowQuads(num, 4)), '.')
  }

  /** The pieces of int_to_ip are the bytes of num, most significant first;
      bits above the 32nd are dropped. */
  lemma IntToIpQuads(num: nat)
    ensures Quads(IntToIp(num)) == [NatToString(Byte(num, 3)), NatToString(Byte(num, 2)),
                                    NatToString(Byte(num, 1)), NatToString(Byte(num, 0))]
  {
    JoinedBytes(num);
  }

  lemma JoinedBytes(num: nat)
    ensures var r := Join(Reverse(LowQuads(num, 4)), '.');
      Quads(r) == [NatToString(Byte(num, 3)), NatToString(Byte(num, 2)),
                   NatToString(Byte(num, 1)), NatToString(Byte(num, 0))]
      && DottedDecimal(r)
  {
    LowQuadsBytes(num, 4);
    var parts := Reverse(LowQuads(num, 4));
    forall i | 0 <= i < 4
      ensures '.' !in parts[i]
    {
      DigitsNoSep(Byte(num, 3 - i), 10, '.');
    }
    SplitJoin(parts, '.');
  }

  /** The binary groups of binary_addr: each quad as `bin(q)[2:].zfill(8)`. */
  function Groups(vs: seq<nat>): seq<string>
  {
    seq(|vs|, i requires 0 <= i < |vs| => ZFill(BinStr(vs[i]), 8))
  }

  /** binary_addr. */
  function BinaryAddr(s: string): string
    requires DottedDecimal(s)
  {
    Join(Groups(QuadValues(s)), '.')
  }

  /** netmask_length: the number of '1' characters of binary_addr. */
  function NetmaskLength(netmask: string): nat
    requires DottedDecimal(netmask)
  {
    Count('1', BinaryAddr(netmask))
  }

  /** Total number of one-bits of a list of quads. */
  function SumPopcount(vs: seq<nat>): nat
  {
    if |vs| == 0 then 0 else Popcount(vs[0]) + SumPopcount(vs[1..])
  }

  /** cidr_repr: the network text, '/', then the number of one-bits of the
      netmask's quads. */
  function CidrRepr(network: string, netmask: string): (r: string)
    requires DottedDecimal(netmask)
    ensures r == network + "/" + NatToString(SumPopcount(QuadValues(netmask)))
  {
    NetmaskLengthIsPopcount(netmask);
    network + "/" + NatToString(NetmaskLength(netmask))
  }

  /** ip_prefix_int: the address masked with `0xFFFFFFFF << (32 - L)`. The
      mask keeps bits 32-L .. 63-L of the number, and never makes it larger. */
  function IpPrefixInt(network: string, prefixLength: nat): (r: nat)
    requires DottedDecimal(network) && prefixLength <= 32
    ensures r <= IpToInt(network)
    ensures r == Shl(Shr(IpToInt(network), 32 - prefixLength) % Word, 32 - prefixLength)
  {
    Pow2Word();
    AndShiftedMask(IpToInt(network), 32, 32 - prefixLength);
    And(IpToInt(network), Shl(FullMask, 32 - prefixLength))
  }

  /** ip_prefix: the masked address printed back as a dotted quad. */
  function IpPrefix(network: string, prefixLength: nat): (r: string)
    requires DottedDecimal(network) && prefixLength <= 32
    ensures CanonicalIpv4(r) && IpToInt(r) == IpPrefixInt(network, prefixLength) % Word
  {
    IntToIpRoundTrip(IpPrefixInt(network, prefixLength));
    IntToIp(IpPrefixInt(network, prefixLength))
  }

  /** The mask of prefix_to_netmask, `(0xFFFFFFFF << (32 - L)) & 0xFFFFFFFF`:
      L one-bits followed by 32 - L zero-bits. */
  function NetmaskBits(length: nat): (m: nat)
    requires length <= 32
    ensures m == Shl(Pow2(length) - 1, 32 - length)
    ensures m < Word && Popcount(m) == length
  {
    NetmaskValue(length);
    NetmaskOnes(length);
    And(Shl(FullMask, 32 - length), FullMask)
  }

  /** prefix_to_netmask: the mask printed as a dotted quad, whose netmask
      length is L again. */
  function PrefixToNetmask(length: nat): (r: string)
    requires length <= 32
    ensures CanonicalIpv4(r)
    ensures IpToInt(r) == NetmaskBits(length)
    ensures NetmaskLength(r) == length
  {
    var m := NetmaskBits(length);
    WordPrinted(m);
    IntToIp(m)
  }

  // ----- Lemmas

  lemma Pow2Byte()
    ensures Pow2(8) == 256
  {
  }

  lemma Pow2Word()
    ensures Pow2(32) == Word
  {
    Pow2Byte();
    Pow2Add(8, 8);
    Pow2Add(16, 16);
  }

  lemma {:induction false} LowQuadsBytesAt(num: nat, k: nat)
    ensures |LowQuads(num, k)| == k
    ensures forall i :: 0 <= i < k ==> LowQuads(num, k)[i] == NatToString(Byte(num, i))
  {
    if k > 0 {
      assert And(num, 0xFF) == num % 256 by {
        Pow2Byte();
        AndLowMask(num, 8);
      }
      assert Shr(num, 8) == num / 256 by {
        Pow2Byte();
      }
      LowQuadsBytesAt(num / 256, k - 1);
    }
  }

  lemma LowQuadsBytes(num: nat, k: nat)
    ensures LowQuads(num, k) == seq(k, i requires 0 <= i < k => NatToString(Byte(num, i)))
  {
    LowQuadsBytesAt(num, k);
  }

  /** The four bytes of num, most significant first, rebuild num modulo 2^32. */
  lemma BytesCompose(num: nat)
    ensures ((Byte(num, 3) * 256 + Byte(num, 2)) * 256 + Byte(num, 1)) * 256 + Byte(num, 0)
            == num % Word
  {
    var a1 := num / 256;
    var a2 := a1 / 256;
    var a3 := a2 / 256;
    var a4 := a3 / 256;
    assert Byte(num, 1) == Byte(a1, 0) == a1 % 256;
    assert Byte(num, 2) == Byte(a1, 1) == Byte(a2, 0) == a2 % 256;
    assert Byte(num, 3) == Byte(a1, 2) == Byte(a2, 1) == Byte(a3, 0) == a3 % 256;
    var x := ((a3 % 256 * 256 + a2 % 256) * 256 + a1 % 256) * 256 + num % 256;
    assert num == Word * a4 + x;
    DivModUnique(num, Word, a4, x);
  }

  /** The bytes of a number built from four quads below 256 are those quads. */
  lemma BytesOfCompose(q0: nat, q1: nat, q2: nat, q3: nat)
    requires q0 < 256 && q1 < 256 && q2 < 256 && q3 < 256
    ensures var v := ((q0 * 256 + q1) * 256 + q2) * 256 + q3;
      Byte(v, 3) == q0 && Byte(v, 2) == q1 && Byte(v, 1) == q2 && Byte(v, 0) == q3
  {
    var v2 := q0 * 256 + q1;
    var v1 := v2 * 256 + q2;
    var v := v1 * 256 + q3;
    DivModUnique(v, 256, v1, q3);
    DivModUnique(v1, 256, v2, q2);
    DivModUnique(v2, 256, q0, q1);
    assert Byte(v, 3) == Byte(v1, 2) == Byte(v2, 1) == Byte(q0, 0);
    assert Byte(v, 2) == Byte(v1, 1) == Byte(v2, 0);
  }

  lemma ShiftInStep(vs: seq<nat>)
    requires |vs| >= 1
    ensures ShiftIn(vs) == ShiftIn(vs[..|vs| - 1]) * 256 + vs[|vs| - 1]
  {
    Pow2Byte();
  }

  /** ip_to_int of a four-quad address is a*2^24 + b*2^16 + c*2^8 + d, below 2^32. */
  lemma IpToIntValue(s: string)
    requires Ipv4(s)
    ensures var q := QuadValues(s);
      IpToInt(s) == q[0] * 16777216 + q[1] * 65536 + q[2] * 256 + q[3]
      && IpToInt(s) < Word
  {
    var q := QuadValues(s);
    ShiftInStep(q[..1]);
    assert q[..1][..0] == [];
    ShiftInStep(q[..2]);
    assert q[..2][..1] == q[..1];
    ShiftInStep(q[..3]);
    assert q[..3][..2] == q[..2];
    ShiftInStep(q);
    assert q[..4] == q;
  }

  /** int_to_ip prints a canonical IPv4 address whose quads are the bytes of
      num, and ip_to_int reads it back as num modulo 2^32. */
  lemma IntToIpRoundTrip(num: nat)
    ensures CanonicalIpv4(IntToIp(num))
    ensures QuadValues(IntToIp(num)) == [Byte(num, 3), Byte(num, 2), Byte(num, 1), Byte(num, 0)]
    ensures IpToInt(IntToIp(num)) == num % Word
  {
    var s := IntToIp(num);
    var bs := [Byte(num, 3), Byte(num, 2), Byte(num, 1), Byte(num, 0)];
    IntToIpQuads(num);
    PrintedQuads(s, bs);
    IpToIntValue(s);
    BytesCompose(num);
    Horner(bs[0], bs[1], bs[2], bs[3]);
  }

  /** A text whose dotted pieces are the printed numbers bs reads back as bs. */
  lemma PrintedQuads(s: string, bs: seq<nat>)
    requires |bs| == 4 && forall i :: 0 <= i < 4 ==> bs[i] < 256
    requires Quads(s) == [NatToString(bs[0]), NatToString(bs[1]), NatToString(bs[2]), NatToString(bs[3])]
    ensures CanonicalIpv4(s) && QuadValues(s) == bs
  {
    forall i | 0 <= i < 4
      ensures ParseNat(Quads(s)[i]) == bs[i]
    {
      ParseDigitsOfDigits(bs[i], 10);
    }
  }

  lemma Horner(a: nat, b: nat, c: nat, d: nat)
    ensures ((a * 256 + b) * 256 + c) * 256 + d == a * 16777216 + b * 65536 + c * 256 + d
  {
  }


  /** For n below 2^32, ip_to_int(int_to_ip(n)) == n. */
  lemma IpToIntOfIntToIp(n: nat)
    requires n < Word
    ensures IpToInt(IntToIp(n)) == n
  {
    IntToIpRoundTrip(n);
    ModSmall(n, Word);
  }

  /** L one-bits followed by 32 - L zero-bits fit in 32 bits and have L
      one-bits. */
  lemma NetmaskOnes(length: nat)
    requires length <= 32
    ensures Shl(Pow2(length) - 1, 32 - length) < Word
    ensures Popcount(Shl(Pow2(length) - 1, 32 - length)) == length
  {
    NetmaskBelowWord(length);
    PopcountShl(Pow2(length) - 1, 32 - length);
    PopcountOnes(length);
  }

  /** A number below 2^32 printed and read back, with its one-bits counted. */
  lemma WordPrinted(m: nat)
    requires m < Word
    ensures CanonicalIpv4(IntToIp(m)) && IpToInt(IntToIp(m)) == m
    ensures NetmaskLength(IntToIp(m)) == Popcount(m)
  {
    ModSmall(m, Word);
    IntToIpRoundTrip(m);
    NetmaskLengthOfIntToIp(m);
  }


  /** For a canonical dotted quad s, int_to_ip(ip_to_int(s)) == s. */
  lemma IntToIpOfIpToInt(s: string)
    requires CanonicalIpv4(s)
    ensures IntToIp(IpToInt(s)) == s
  {
    var q := QuadValues(s);
    var qs := Quads(s);
    IpToIntValue(s);
    var v := IpToInt(s);
    assert v == ((q[0] * 256 + q[1]) * 256 + q[2]) * 256 + q[3];
    BytesOfCompose(q[0], q[1], q[2], q[3]);
    forall i | 0 <= i < 4
      ensures NatToString(q[i]) == qs[i]
    {
      DigitsOfParseDigits(qs[i], 10);
    }
    IntToIpQuads(v);
    assert Quads(IntToIp(v)) == qs;
    JoinSplit(IntToIp(v), '.');
    JoinSplit(s, '.');
  }

  /** binary_addr of an IPv4 address is four groups of eight binary digits
      joined by dots, group i spelling quad i. */
  lemma BinaryAddrGroups(s: string)
    requires Ipv4(s)
    ensures var g := Split(BinaryAddr(s), '.');
      |g| == 4 && forall i :: 0 <= i < 4 ==>
        |g[i]| == 8 && DigitsIn(g[i], 2) && ParseDigits(g[i], 2) == QuadValues(s)[i]
  {
    var q := QuadValues(s);
    var gs := Groups(q);
    Pow2Byte();
    forall i | 0 <= i < 4
      ensures |gs[i]| == 8 && DigitsIn(gs[i], 2) && ParseDigits(gs[i], 2) == q[i]
      ensures '.' !in gs[i]
    {
      var b := BinStr(q[i]);
      BinStrLength(q[i], 8);
      ParseDigitsOfDigits(q[i], 2);
      ParseLeadingZeros(8 - |b|, b, 2);
      assert gs[i] == Repeat('0', 8 - |b|) + b;
    }
    SplitJoin(gs, '.');
  }

  lemma {:induction false} GroupsCount(vs: seq<nat>)
    ensures SumCounts('1', Groups(vs)) == SumPopcount(vs)
    decreases |vs|
  {
    if |vs| > 0 {
      assert Groups(vs)[1..] == Groups(vs[1..]);
      GroupsCount(vs[1..]);
      CountOnesZFill(BinStr(vs[0]), 8);
      CountOnesBinStr(vs[0]);
    }
  }

  /** netmask_length counts the one-bits of all quads. */
  lemma NetmaskLengthIsPopcount(netmask: string)
    requires DottedDecimal(netmask)
    ensures NetmaskLength(netmask) == SumPopcount(QuadValues(netmask))
  {
    CountJoin('1', Groups(QuadValues(netmask)), '.');
    GroupsCount(QuadValues(netmask));
  }

  /** The netmask length of int_to_ip(n) is the number of one-bits of n's
      low 32 bits. */
  lemma NetmaskLengthOfIntToIp(n: nat)
    ensures NetmaskLength(IntToIp(n)) == Popcount(n % Word)
  {
    var b3, b2, b1, b0 := Byte(n, 3), Byte(n, 2), Byte(n, 1), Byte(n, 0);
    var vs := [b3, b2, b1, b0];
    assert NetmaskLength(IntToIp(n)) == SumPopcount(vs) by {
      IntToIpRoundTrip(n);
      NetmaskLengthIsPopcount(IntToIp(n));
    }
    SumPopcountFour(b3, b2, b1, b0);
    var x := ((b3 * 256 + b2) * 256 + b1) * 256 + b0;
    assert x == n % Word by {
      BytesCompose(n);
    }
    PopcountBytes(b3, b2, b1, b0);
  }

  lemma SumPopcountCons(v: nat, vs: seq<nat>)
    ensures SumPopcount([v] + vs) == Popcount(v) + SumPopcount(vs)
  {
    assert ([v] + vs)[1..] == vs;
  }

  lemma SumPopcountFour(a: nat, b: nat, c: nat, d: nat)
    ensures SumPopcount([a, b, c, d]) == Popcount(a) + Popcount(b) + Popcount(c) + Popcount(d)
  {
    SumPopcountCons(d, []);
    SumPopcountCons(c, [d]);
    SumPopcountCons(b, [c, d]);
    SumPopcountCons(a, [b, c, d]);
    assert [a] + [b, c, d] == [a, b, c, d];
  }

  lemma PopcountBytes(b3: nat, b2: nat, b1: nat, b0: nat)
    requires b2 < 256 && b1 < 256 && b0 < 256
    ensures Popcount(((b3 * 256 + b2) * 256 + b1) * 256 + b0)
            == Popcount(b3) + Popcount(b2) + Popcount(b1) + Popcount(b0)
  {
    PopcountSplitByte(b3, b2);
    PopcountSplitByte(b3 * 256 + b2, b1);
    PopcountSplitByte((b3 * 256 + b2) * 256 + b1, b0);
  }

  lemma PopcountSplitByte(a: nat, b: nat)
    requires b < 256
    ensures Popcount(a * 256 + b) == Popcount(a) + Popcount(b)
  {
    assert Pow2(8) == 256;
    PopcountSplit(a, b, 8);
  }

  /** The value of prefix_to_netmask's mask: L one-bits then 32 - L zero-bits. */
  lemma NetmaskValue(length: nat)
    requires length <= 32
    ensures And(Shl(FullMask, 32 - length), FullMask) == Shl(Pow2(length) - 1, 32 - length)
  {
    var m := 32 - length;
    var pl, pm := Pow2(length), Pow2(m);
    var x := Shl(FullMask, m);
    var r := Shl(pl - 1, m);
    assert And(x, FullMask) == x % Word by {
      Pow2Word();
      AndLowMask(x, 32);
    }
    assert pl * pm == Word by {
      Pow2Word();
      Pow2Add(length, m);
    }
    MaskArith(pl, pm, Word);
    assert x == (Word - 1) * pm;
    DivModUnique(x, Word, pm - 1, r);
  }

  lemma NetmaskBelowWord(length: nat)
    requires length <= 32
    ensures Shl(Pow2(length) - 1, 32 - length) < Word
  {
    var pl, pm := Pow2(length), Pow2(32 - length);
    assert pl * pm == Word by {
      Pow2Word();
      Pow2Add(length, 32 - length);
    }
    MaskArith(pl, pm, Word);
  }

  lemma MaskArith(pl: int, pm: int, w: int)
    requires pl >= 1 && pm >= 1 && pl * pm == w
    ensures (w - 1) * pm == w * (pm - 1) + (pl - 1) * pm
    ensures 0 <= (pl - 1) * pm < w
  {
    assert (pl - 1) * pm == pl * pm - pm;
    assert (w - 1) * pm == w * pm - pm;
    assert w * (pm - 1) == w * pm - w;
    MulMonotone(pm, 0, pl - 1);
  }

  // ----- Prefix masking

  /** ip_prefix_int keeps bits 0 .. L-1 of the address (most significant
      first) and clears the rest. */
  lemma IpPrefixBits(network: string, prefixLength: nat, i: nat)
    requires DottedDecimal(network) && prefixLength <= 32 && i < 32
    ensures BitAt(IpPrefixInt(network, prefixLength), i)
            == if i < prefixLength then BitAt(IpToInt(network), i) else 0
  {
    Pow2Word();
    MaskedBits(IpToInt(network), prefixLength, i);
  }

  /** For an IPv4 address, ip_prefix_int is the address with its low
      32 - L bits subtracted away. */
  lemma IpPrefixValue(network: string, prefixLength: nat)
    requires Ipv4(network) && prefixLength <= 32
    ensures IpPrefixInt(network, prefixLength)
            == IpToInt(network) - IpToInt(network) % Pow2(32 - prefixLength)
  {
    IpToIntValue(network);
    ShiftBackClears(IpToInt(network), 32 - prefixLength, Word);
  }

  /** With L = 32 nothing is cleared. */
  lemma IpPrefixFull(network: string)
    requires Ipv4(network)
    ensures IpPrefixInt(network, 32) == IpToInt(network)
  {
    IpPrefixValue(network, 32);
  }

  /** With L = 0 everything is cleared. */
  lemma IpPrefixEmpty(network: string)
    requires Ipv4(network)
    ensures IpPrefixInt(network, 0) == 0
  {
    var v := IpToInt(network);
    IpPrefixValue(network, 0);
    Pow2Word();
    assert v < Word by { IpToIntValue(network); }
    DivModUnique(v, Word, 0, v);
  }

  /** Masking a masked address again changes nothing. */
  lemma IpPrefixIdempotent(network: string, prefixLength: nat)
    requires Ipv4(network) && prefixLength <= 32
    ensures IpPrefixInt(IpPrefix(network, prefixLength), prefixLength)
            == IpPrefixInt(network, prefixLength)
  {
    var v := IpToInt(network);
    var p := Pow2(32 - prefixLength);
    var P := IpPrefixInt(network, prefixLength);
    var a := v / p;
    assert P == p * a by {
      IpPrefixValue(network, prefixLength);
      DivModSpec(v, p);
    }
    assert P < Word by { IpToIntValue(network); }
    var s := IpPrefix(network, prefixLength);
    assert IpToInt(s) == P by { DivModUnique(P, Word, 0, P); }
    assert P % p == 0 by { DivModUnique(P, p, a, 0); }
    IpPrefixValue(s, prefixLength);
  }

  /** ip_prefix_int is the address masked with the netmask that
      prefix_to_netmask prints for the same length. */
  lemma IpPrefixIsNetmaskAnd(network: string, prefixLength: nat)
    requires Ipv4(network) && prefixLength <= 32
    ensures IpPrefixInt(network, prefixLength) == And(IpToInt(network), IpToInt(PrefixToNetmask(prefixLength)))
  {
    IpPrefixMasked(network, prefixLength);
  }

  lemma IpPrefixMasked(network: string, prefixLength: nat)
    requires Ipv4(network) && prefixLength <= 32
    ensures IpPrefixInt(network, prefixLength) == And(IpToInt(network), NetmaskBits(prefixLength))
  {
    assert IpToInt(network) < Word by { IpToIntValue(network); }
    WordMask(IpToInt(network), prefixLength);
  }

  /** For a 32-bit v, clearing the low 32 - L bits by shifting is masking
      with L one-bits followed by 32 - L zero-bits. */
  lemma WordMask(v: nat, prefixLength: nat)
    requires v < Word && prefixLength <= 32
    ensures Shl(Shr(v, 32 - prefixLength) % Word, 32 - prefixLength)
            == And(v, Shl(Pow2(prefixLength) - 1, 32 - prefixLength))
  {
    var s := 32 - prefixLength;
    assert Pow2(s + prefixLength) == Word by { Pow2Word(); }
    assert Pow2(prefixLength) <= Word by {
      Pow2Word();
      Pow2Monotone(prefixLength, 32);
    }
    ShiftBackIsMask(v, s, prefixLength, Word);
  }



  /** The CIDR text of a network and the netmask of length L splits at '/'
      into the network text and the decimal L. */
  lemma CidrOfPrefix(network: string, prefixLength: nat)
    requires prefixLength <= 32 && '/' !in network
    ensures Split(CidrRepr(network, PrefixToNetmask(prefixLength)), '/')
            == [network, NatToString(prefixLength)]
  {
    var nm := PrefixToNetmask(prefixLength);
    NetmaskLengthIsPopcount(nm);
    var len := NatToString(prefixLength);
    assert CidrRepr(network, nm) == network + ['/'] + len;
    SplitAtSep(network, '/', len);
    DigitsNoSep(prefixLength, 10, '/');
    SplitNoSep(len, '/');
  }

  /** Bits 0 .. 31 of a number do not depend on what lies above 2^32. */
  lemma BitAtMod(x: nat, i: nat)
    requires i < 32
    ensures BitAt(x % Word, i) == BitAt(x, i)
  {
    BitAtValue(x % Word, i);
    BitAtValue(x, i);
    Pow2Word();
    BitOfMod(x, 31 - i, 32);
  }
}
