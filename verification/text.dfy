/** The Python string operations the IPv4 helpers rely on: `str(n)`,
    `int(s)`, `bin(n)[2:]`, `zfill`, `count`, `split`, `join` and `[::-1]`,
    on plain sequences of characters. */
module Text {
  import opened Bits

  predicate IsDigit(c: char)
  {
    '0' <= c <= '9'
  }

  /** Every character of s is a digit of the given base (2 or 10 here). */
  predicate DigitsIn(s: string, base: nat)
  {
    forall i :: 0 <= i < |s| ==> IsDigit(s[i]) && (s[i] as int) - ('0' as int) < base
  }

  /** A digit string as `str` prints it: non-empty, no leading zero. */
  predicate Canonical(s: string, base: nat)
  {
    |s| >= 1 && DigitsIn(s, base) && (|s| == 1 || s[0] != '0')
  }

  function DigitChar(d: nat): (c: char)
    requires d < 10
    ensures IsDigit(c) && (c as int) - ('0' as int) == d
  {
    (('0' as int) + d) as char
  }

  function DigitValue(c: char): (d: nat)
    requires IsDigit(c)
    ensures d < 10 && DigitChar(d) == c
  {
    (c as int) - ('0' as int)
  }

  /** Python `int(s, base)` on a string of digits of that base. */
  function ParseDigits(s: string, base: nat): nat
    requires DigitsIn(s, base)
  {
    if |s| == 0 then 0
    else base * ParseDigits(s[..|s| - 1], base) + DigitValue(s[|s| - 1])
  }

  /** The digits of n in the given base, most significant first, without
      leading zeros (a lone "0" for zero). */
  function Digits(n: nat, base: nat): (s: string)
    requires 2 <= base <= 10
    ensures |s| >= 1 && DigitsIn(s, base)
    ensures s[0] == '0' <==> n == 0
    decreases n
  {
    if n < base then [DigitChar(n)]
    else Digits(n / base, base) + [DigitChar(n % base)]
  }

  /** Python `str(n)` for a non-negative n. */
  function NatToString(n: nat): string
  {
    Digits(n, 10)
  }

  /** Python `int(s)` for a non-empty string of decimal digits. */
  function ParseNat(s: string): nat
    requires DigitsIn(s, 10)
  {
    ParseDigits(s, 10)
  }

  /** Python `bin(n)[2:]` for a non-negative n. */
  function BinStr(n: nat): string
  {
    Digits(n, 2)
  }

  /** k copies of c. */
  function Repeat(c: char, k: nat): (s: string)
    ensures |s| == k && forall i :: 0 <= i < k ==> s[i] == c
  {
    if k == 0 then [] else [c] + Repeat(c, k - 1)
  }

  /** Python `s.zfill(w)` for an unsigned s: left-pad with '0' up to width w. */
  function ZFill(s: string, w: nat): string
  {
    if |s| >= w then s else Repeat('0', w - |s|) + s
  }

  /** Python `s.count(c)` for a one-character c. */
  function Count(c: char, s: string): nat
  {
    if |s| == 0 then 0
    else (if s[|s| - 1] == c then 1 else 0) + Count(c, s[..|s| - 1])
  }

  /** Python `s[::-1]` on a list. */
  function Reverse<T>(s: seq<T>): (r: seq<T>)
    ensures |r| == |s| && forall i :: 0 <= i < |s| ==> r[i] == s[|s| - 1 - i]
  {
    if |s| == 0 then [] else Reverse(s[1..]) + [s[0]]
  }

  /** Python `s.split(sep)`: the pieces between separators, empty pieces kept. */
  function Split(s: string, sep: char): (parts: seq<string>)
    ensures |parts| >= 1
    ensures forall i :: 0 <= i < |parts| ==> sep !in parts[i]
  {
    if |s| == 0 then [""]
    else
      var rest := Split(s[1..], sep);
      if s[0] == sep then [""] + rest
      else [[s[0]] + rest[0]] + rest[1..]
  }

  /** Python `sep.join(parts)`. */
  function Join(parts: seq<string>, sep: char): string
  {
    if |parts| == 0 then ""
    else if |parts| == 1 then parts[0]
    else parts[0] + [sep] + Join(parts[1..], sep)
  }

  // ----- Decimal and binary conversions

  /** Parsing the printed digits gives the number back. */
  lemma {:induction false} ParseDigitsOfDigits(n: nat, base: nat)
    requires 2 <= base <= 10
    ensures ParseDigits(Digits(n, base), base) == n
    decreases n
  {
    var s := Digits(n, base);
    if n >= base {
      var q, r := n / base, n % base;
      DivModSpec(n, base);
      DivShrinks(n, base);
      assert s[..|s| - 1] == Digits(q, base);
      assert DigitValue(s[|s| - 1]) == r;
      ParseDigitsOfDigits(q, base);
      assert ParseDigits(s, base) == base * q + r;
    }
  }

  lemma {:induction false} ParsePositive(s: string, base: nat)
    requires base >= 1 && |s| >= 1 && DigitsIn(s, base) && s[0] != '0'
    ensures ParseDigits(s, base) >= 1
    decreases |s|
  {
    if |s| > 1 {
      var p := s[..|s| - 1];
      assert p[0] == s[0];
      ParsePositive(p, base);
      MulAtLeast(base, ParseDigits(p, base));
    }
  }

  /** Printing a parsed canonical digit string gives the string back. */
  lemma {:induction false} DigitsOfParseDigits(s: string, base: nat)
    requires 2 <= base <= 10 && Canonical(s, base)
    ensures Digits(ParseDigits(s, base), base) == s
    decreases |s|
  {
    var d := DigitValue(s[|s| - 1]);
    if |s| == 1 {
      assert ParseDigits(s, base) == d;
    } else {
      var p := s[..|s| - 1];
      assert p[0] == s[0];
      ParsePositive(p, base);
      DigitsOfParseDigits(p, base);
      var v := ParseDigits(s, base);
      var v' := ParseDigits(p, base);
      assert v == base * v' + d;
      DivModUnique(v, base, v', d);
      MulAtLeast(base, v');
      assert s == p + [s[|s| - 1]];
    }
  }

  /** Leading zeros do not change the parsed value. */
  lemma {:induction false} ParseLeadingZeros(k: nat, s: string, base: nat)
    requires DigitsIn(s, base) && base >= 1
    ensures DigitsIn(Repeat('0', k) + s, base)
    ensures ParseDigits(Repeat('0', k) + s, base) == ParseDigits(s, base)
    decreases |s|
  {
    var z := Repeat('0', k);
    if |s| == 0 {
      assert z + s == z;
      ParseZeros(k, base);
    } else {
      var p := s[..|s| - 1];
      assert (z + s)[..|z + s| - 1] == z + p;
      ParseLeadingZeros(k, p, base);
    }
  }

  lemma {:induction false} ParseZeros(k: nat, base: nat)
    requires base >= 1
    ensures DigitsIn(Repeat('0', k), base) && ParseDigits(Repeat('0', k), base) == 0
  {
    if k > 0 {
      var z := Repeat('0', k);
      assert z[..k - 1] == Repeat('0', k - 1);
      ParseZeros(k - 1, base);
    }
  }

  /** A number below 2^k has at most k binary digits. */
  lemma {:induction false} BinStrLength(n: nat, k: nat)
    requires k >= 1 && n < Pow2(k)
    ensures |BinStr(n)| <= k
    decreases k
  {
    if n >= 2 {
      BinStrLength(n / 2, k - 1);
    }
  }

  /** The one-digits of bin(n) are the one-bits of n. */
  lemma {:induction false} CountOnesBinStr(n: nat)
    ensures Count('1', BinStr(n)) == Popcount(n)
    decreases n
  {
    var s := BinStr(n);
    if n < 2 {
      assert s == [DigitChar(n)];
      assert s[..0] == [];
    } else {
      assert s[..|s| - 1] == BinStr(n / 2);
      CountOnesBinStr(n / 2);
    }
  }

  lemma {:induction false} CountAppend(c: char, a: string, b: string)
    ensures Count(c, a + b) == Count(c, a) + Count(c, b)
    decreases |b|
  {
    if |b| > 0 {
      assert (a + b)[..|a + b| - 1] == a + b[..|b| - 1];
      CountAppend(c, a, b[..|b| - 1]);
    } else {
      assert a + b == a;
    }
  }

  lemma {:induction false} CountRepeatOther(c: char, d: char, k: nat)
    requires c != d
    ensures Count(c, Repeat(d, k)) == 0
  {
    if k > 0 {
      assert Repeat(d, k) == [d] + Repeat(d, k - 1);
      CountAppend(c, [d], Repeat(d, k - 1));
      CountRepeatOther(c, d, k - 1);
    }
  }

  /** Padding with zeros adds no one-digits. */
  lemma CountOnesZFill(s: string, w: nat)
    ensures Count('1', ZFill(s, w)) == Count('1', s)
  {
    if |s| < w {
      CountAppend('1', Repeat('0', w - |s|), s);
      CountRepeatOther('1', '0', w - |s|);
    }
  }

  // ----- split and join

  /** A string without the separator splits into itself alone. */
  lemma {:induction false} SplitNoSep(p: string, sep: char)
    requires sep !in p
    ensures Split(p, sep) == [p]
    decreases |p|
  {
    if |p| > 0 {
      SplitNoSep(p[1..], sep);
      assert [p[0]] + p[1..] == p;
    }
  }

  /** Splitting at the first separator. */
  lemma {:induction false} SplitAtSep(p: string, sep: char, rest: string)
    requires sep !in p
    ensures Split(p + [sep] + rest, sep) == [p] + Split(rest, sep)
    decreases |p|
  {
    var s := p + [sep] + rest;
    if |p| == 0 {
      assert s[1..] == rest;
    } else {
      assert s[1..] == p[1..] + [sep] + rest;
      SplitAtSep(p[1..], sep, rest);
      assert [p[0]] + p[1..] == p;
    }
  }

  /** Splitting a join of separator-free pieces gives the pieces back. */
  lemma {:induction false} SplitJoin(parts: seq<string>, sep: char)
    requires |parts| >= 1
    requires forall i :: 0 <= i < |parts| ==> sep !in parts[i]
    ensures Split(Join(parts, sep), sep) == parts
    decreases |parts|
  {
    if |parts| == 1 {
      SplitNoSep(parts[0], sep);
    } else {
      SplitJoin(parts[1..], sep);
      SplitAtSep(parts[0], sep, Join(parts[1..], sep));
      assert [parts[0]] + parts[1..] == parts;
    }
  }

  /** Joining the pieces of a split gives the string back. */
  lemma {:induction false} JoinSplit(s: string, sep: char)
    ensures Join(Split(s, sep), sep) == s
    decreases |s|
  {
    if |s| > 0 {
      var rest := Split(s[1..], sep);
      JoinSplit(s[1..], sep);
      if s[0] == sep {
        assert ([""] + rest)[1..] == rest;
      } else {
        var parts := [[s[0]] + rest[0]] + rest[1..];
        if |rest| > 1 {
          assert parts[1..] == rest[1..];
          assert Join(rest, sep) == rest[0] + [sep] + Join(rest[1..], sep);
        }
        assert s == [s[0]] + s[1..];
      }
    }
  }

  /** The occurrences of c in a join, when c is not the separator. */
  lemma {:induction false} CountJoin(c: char, parts: seq<string>, sep: char)
    requires c != sep
    ensures Count(c, Join(parts, sep)) == SumCounts(c, parts)
    decreases |parts|
  {
    if |parts| > 1 {
      CountJoin(c, parts[1..], sep);
      CountAppend(c, parts[0] + [sep], Join(parts[1..], sep));
      CountAppend(c, parts[0], [sep]);
      assert [sep][..0] == [];
    }
  }

  function SumCounts(c: char, parts: seq<string>): nat
  {
    if |parts| == 0 then 0 else Count(c, parts[0]) + SumCounts(c, parts[1..])
  }

  lemma DigitsNoSep(n: nat, base: nat, sep: char)
    requires 2 <= base <= 10 && !IsDigit(sep)
    ensures sep !in Digits(n, base)
  {
  }
}
