/**
 * String helpers with the meaning Python gives them in the program:
 * str() of an integer, int() of a run of ASCII digits, str.split on one
 * character, repetition `c * n`, the minimum-width padding of str.format,
 * and the ordering Python uses to compare two strings.
 */
module Text {

  predicate IsDigit(c: char) {
    '0' <= c <= '9'
  }

  predicate IsDigits(s: string) {
    forall i :: 0 <= i < |s| ==> IsDigit(s[i])
  }

  function DigitChar(d: nat): (c: char)
    requires d < 10
    ensures IsDigit(c) && (c as int) - ('0' as int) == d
  {
    (('0' as int) + d) as char
  }

  function DigitValue(c: char): (d: nat)
    requires IsDigit(c)
    ensures d < 10
  {
    (c as int) - ('0' as int)
  }

  /** Decimal digits of `n`, most significant first, without leading zeros (Python `str(n)` for n >= 0). */
  function NatToString(n: nat): (s: string)
    ensures |s| >= 1 && IsDigits(s)
    ensures |s| > 1 ==> s[0] != '0'
  {
    if n < 10 then [DigitChar(n)] else NatToString(n / 10) + [DigitChar(n % 10)]
  }

  /** Python `str(i)` for an int: a minus sign before the digits of a negative number. */
  function IntToString(i: int): (s: string)
    ensures |s| >= 1
    ensures (i < 0) <==> s[0] == '-'
  {
    if i < 0 then "-" + NatToString(-i) else NatToString(i)
  }

  /** After the sign, `str(i)` is the decimal form of the magnitude of i. */
  lemma IntToStringDecimal(i: int)
    ensures var s := IntToString(i); Decimal(if i < 0 then s[1..] else s, if i < 0 then -i else i)
  {
    var m: nat := if i < 0 then -i else i;
    var t := NatToString(m);
    ParseNatToString(m);
    assert Decimal(t, m);
    if i < 0 {
      assert IntToString(i) == "-" + t;
      assert IntToString(i)[1..] == t;
    } else {
      assert IntToString(i) == t;
    }
  }

  /** t is the decimal form of n: digits only, no leading zero, and `int()` reads n from it. */
  predicate Decimal(t: string, n: nat) {
    |t| >= 1 && IsDigits(t) && (|t| > 1 ==> t[0] != '0') && ParseNat(t) == n
  }

  /** Value of a run of decimal digits (Python `int(s)` on ASCII digits; leading zeros allowed). */
  function ParseNat(s: string): nat
    requires IsDigits(s)
  {
    if |s| == 0 then 0 else ParseNat(s[..|s| - 1]) * 10 + DigitValue(s[|s| - 1])
  }

  lemma {:induction false} ParseNatToString(n: nat)
    ensures ParseNat(NatToString(n)) == n
  {
    if n >= 10 {
      var s := NatToString(n / 10);
      var t := s + [DigitChar(n % 10)];
      assert t[..|t| - 1] == s;
      ParseNatToString(n / 10);
    }
  }

  /** `s * n` in Python for a one-character string: empty when n is zero or negative. */
  function Repeat(c: char, n: int): (s: string)
    ensures |s| == (if n > 0 then n else 0)
    ensures forall i :: 0 <= i < |s| ==> s[i] == c
    decreases if n > 0 then n else 0
  {
    if n <= 0 then "" else [c] + Repeat(c, n - 1)
  }

  lemma {:induction false} ParseNatLeadingZeros(k: nat, s: string)
    requires IsDigits(s)
    ensures IsDigits(Repeat('0', k) + s)
    ensures ParseNat(Repeat('0', k) + s) == ParseNat(s)
  {
    if k > 0 {
      var rest := Repeat('0', k - 1) + s;
      ParseNatLeadingZeros(k - 1, s);
      ParseNatLeadingZero(rest);
      assert Repeat('0', k) == ['0'] + Repeat('0', k - 1);
      assert Repeat('0', k) + s == ['0'] + rest;
    } else {
      assert Repeat('0', k) + s == s;
    }
  }

  lemma {:induction false} ParseNatLeadingZero(s: string)
    requires IsDigits(s)
    ensures IsDigits(['0'] + s) && ParseNat(['0'] + s) == ParseNat(s)
    decreases |s|
  {
    var t := ['0'] + s;
    if |s| > 0 {
      assert t[..|t| - 1] == ['0'] + s[..|s| - 1];
      ParseNatLeadingZero(s[..|s| - 1]);
    } else {
      assert t[..|t| - 1] == [];
    }
  }

  /** A run of digits without a leading zero is the decimal form of its own value. */
  lemma {:induction false} CanonicalDigits(p: string)
    requires IsDigits(p) && |p| > 0 && (|p| > 1 ==> p[0] != '0')
    ensures NatToString(ParseNat(p)) == p
    decreases |p|
  {
    if |p| > 1 {
      var q := p[..|p| - 1];
      CanonicalDigits(q);
      var n := ParseNat(p);
      assert n / 10 == ParseNat(q) && n % 10 == DigitValue(p[|p| - 1]);
      assert ParseNat(q) != 0 by {
        assert q[0] == p[0];
      }
      assert p == q + [p[|p| - 1]];
    }
  }

  /** The decimal form of n after k leading zeros. */
  function Padded(k: nat, n: nat): (s: string)
    ensures IsDigits(s) && |s| > 0 && ParseNat(s) == n
  {
    ParseNatToString(n);
    ParseNatLeadingZeros(k, NatToString(n));
    Repeat('0', k) + NatToString(n)
  }

  lemma OneMoreZero(k: nat, n: nat)
    ensures ['0'] + Padded(k, n) == Padded(k + 1, n)
  {
    assert Repeat('0', k + 1) == ['0'] + Repeat('0', k);
  }

  /** The decimal form of a number is unique, so it is the one NatToString writes. */
  lemma DecimalUnique(t: string, n: nat)
    requires Decimal(t, n)
    ensures t == NatToString(n)
  {
    CanonicalDigits(t);
  }

  /** Any non-empty run of digits is leading zeros, then the decimal form of its value. */
  lemma {:induction false} DigitsAsWritten(p: string)
    requires IsDigits(p) && |p| > 0
    ensures exists k: nat :: p == Padded(k, ParseNat(p))
    decreases |p|
  {
    if |p| > 1 && p[0] == '0' {
      var q := p[1..];
      DigitsAsWritten(q);
      var k: nat :| q == Padded(k, ParseNat(q));
      assert p == ['0'] + q;
      ParseNatLeadingZero(q);
      OneMoreZero(k, ParseNat(q));
    } else {
      CanonicalDigits(p);
      assert p == Padded(0, ParseNat(p));
    }
  }

  /** Zero-padded decimal (printf `%0wd` for n >= 0). */
  function ZeroPad(n: nat, width: nat): (s: string)
    ensures IsDigits(s) && |s| >= width && ParseNat(s) == n
  {
    var digits := NatToString(n);
    Padded(if width > |digits| then width - |digits| else 0, n)
  }

  /** Format spec `{:w}` on a string: left-aligned, space-filled to at least w characters. */
  function PadRight(s: string, width: nat): (r: string)
    ensures |r| == (if |s| >= width then |s| else width)
    ensures r[..|s|] == s
    ensures forall i :: |s| <= i < |r| ==> r[i] == ' '
  {
    s + Repeat(' ', width - |s|)
  }

  /** Format spec `{:>w}`: right-aligned, space-filled to at least w characters. */
  function PadLeft(s: string, width: nat): (r: string)
    ensures |r| == (if |s| >= width then |s| else width)
    ensures r[|r| - |s|..] == s
    ensures forall i :: 0 <= i < |r| - |s| ==> r[i] == ' '
  {
    Repeat(' ', width - |s|) + s
  }

  /** Python `s.split(sep)`: the pieces between occurrences of `sep`; never empty. */
  function Split(s: string, sep: char): (parts: seq<string>)
    ensures |parts| >= 1
    ensures forall k :: 0 <= k < |parts| ==> sep !in parts[k]
  {
    if |s| == 0 then [""]
    else
      var rest := Split(s[1..], sep);
      if s[0] == sep then [""] + rest
      else [[s[0]] + rest[0]] + rest[1..]
  }

  /** Python `sep.join(parts)`: the inverse of Split. */
  function Join(parts: seq<string>, sep: char): string
    requires |parts| >= 1
  {
    if |parts| == 1 then parts[0] else parts[0] + [sep] + Join(parts[1..], sep)
  }

  lemma {:induction false} JoinSplit(s: string, sep: char)
    ensures Join(Split(s, sep), sep) == s
  {
    if |s| > 0 {
      JoinSplit(s[1..], sep);
      var rest := Split(s[1..], sep);
      if s[0] != sep {
        if |rest| > 1 {
          assert ([[s[0]] + rest[0]] + rest[1..])[1..] == rest[1..];
        }
      }
    }
  }

  /** A piece free of the separator followed by the separator splits off as the first part. */
  lemma {:induction false} SplitCons(a: string, sep: char, b: string)
    requires sep !in a
    ensures Split(a + [sep] + b, sep) == [a] + Split(b, sep)
    decreases |a|
  {
    var s := a + [sep] + b;
    if |a| == 0 {
      assert s[1..] == b;
    } else {
      assert s[1..] == a[1..] + [sep] + b;
      SplitCons(a[1..], sep, b);
      assert [a[0]] + a[1..] == a;
    }
  }

  lemma {:induction false} SplitNoSep(a: string, sep: char)
    requires sep !in a
    ensures Split(a, sep) == [a]
    decreases |a|
  {
    if |a| > 0 {
      SplitNoSep(a[1..], sep);
      assert [a[0]] + a[1..] == a;
    }
  }

  /** Three separator-free pieces joined by the separator split back into those pieces. */
  lemma SplitThree(x: string, y: string, z: string, sep: char)
    requires sep !in x && sep !in y && sep !in z
    ensures Split(x + [sep] + y + [sep] + z, sep) == [x, y, z]
  {
    var t := y + [sep] + z;
    SplitNoSep(z, sep);
    SplitCons(y, sep, z);
    assert Split(t, sep) == [y, z];
    SplitCons(x, sep, t);
    assert x + [sep] + y + [sep] + z == x + [sep] + t;
  }

  /** A string that splits into three pieces is those pieces joined by the separator. */
  lemma JoinThree(s: string, sep: char)
    requires |Split(s, sep)| == 3
    ensures var p := Split(s, sep); s == p[0] + [sep] + p[1] + [sep] + p[2]
  {
    var p := Split(s, sep);
    JoinSplit(s, sep);
    assert p[1..][1..] == [p[2]];
    assert Join(p[1..], sep) == p[1] + [sep] + p[2];
    assert s == p[0] + [sep] + (p[1] + [sep] + p[2]);
  }

  /** Each of five concatenated strings is found again at its offset in the result. */
  lemma FiveParts(a: string, b: string, c: string, d: string, e: string)
    ensures var s := a + b + c + d + e;
      && s[..|a|] == a
      && s[|a|..|a| + |b|] == b
      && s[|a| + |b|..|a| + |b| + |c|] == c
      && s[|a| + |b| + |c|..|a| + |b| + |c| + |d|] == d
      && s[|a| + |b| + |c| + |d|..] == e
  {
  }

  /** Each of six concatenated strings is found again at its offset in the result. */
  lemma SixParts(a: string, b: string, c: string, d: string, e: string, f: string)
    ensures var s := a + b + c + d + e + f;
      var i, j, k, l := |a| + |b|, |a| + |b| + |c|, |a| + |b| + |c| + |d|, |a| + |b| + |c| + |d| + |e|;
      && s[..|a|] == a
      && s[|a|..i] == b
      && s[i..j] == c
      && s[j..k] == d
      && s[k..l] == e
      && s[l..] == f
  {
  }

  /** Python's `<` on str: lexicographic by code point, a proper prefix first. */
  predicate LexLess(a: string, b: string)
    decreases |a|
  {
    if |a| == 0 then |b| > 0
    else if |b| == 0 then false
    else if a[0] == b[0] then LexLess(a[1..], b[1..])
    else a[0] < b[0]
  }

  lemma {:induction false} LexLessIrreflexive(a: string)
    ensures !LexLess(a, a)
    decreases |a|
  {
    if |a| > 0 { LexLessIrreflexive(a[1..]); }
  }

  lemma {:induction false} LexLessTotal(a: string, b: string)
    ensures a == b || LexLess(a, b) || LexLess(b, a)
    decreases |a|
  {
    if |a| > 0 && |b| > 0 && a[0] == b[0] {
      LexLessTotal(a[1..], b[1..]);
      if a[1..] == b[1..] {
        assert a == [a[0]] + a[1..] && b == [b[0]] + b[1..];
      }
    }
  }

  lemma {:induction false} LexLessAsymmetric(a: string, b: string)
    ensures !(LexLess(a, b) && LexLess(b, a))
    decreases |a|
  {
    if |a| > 0 && |b| > 0 && a[0] == b[0] {
      LexLessAsymmetric(a[1..], b[1..]);
    }
  }

  lemma {:induction false} LexLessTransitive(a: string, b: string, c: string)
    requires LexLess(a, b) && LexLess(b, c)
    ensures LexLess(a, c)
    decreases |a|
  {
    if |a| > 0 && a[0] == b[0] && b[0] == c[0] {
      LexLessTransitive(a[1..], b[1..], c[1..]);
    }
  }
}
