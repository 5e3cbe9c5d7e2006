/** The `java.lang.String` operations the application relies on, restricted to ASCII:
    `toLowerCase`, `equalsIgnoreCase`, `contains`, `trim` and `String.format("%06d", n)`. */
module Text {

  /** `Character.toLowerCase` on ASCII letters; every other character is kept. */
  function LowerChar(c: char): char
  {
    if 'A' <= c <= 'Z' then (c as int + 32) as char else c
  }

  /** `String.toLowerCase`. */
  function Lower(s: string): string
  {
    seq(|s|, i requires 0 <= i < |s| => LowerChar(s[i]))
  }

  /** `String.equalsIgnoreCase`: same length and the same characters up to case. */
  predicate EqualsIgnoreCase(a: string, b: string)
  {
    Lower(a) == Lower(b)
  }

  /** Strings that differ in length, or in one position up to case, are not equal ignoring case. */
  lemma NotEqualIgnoringCase(a: string, b: string, i: nat)
    requires |a| != |b| || (i < |a| && i < |b| && LowerChar(a[i]) != LowerChar(b[i]))
    ensures !EqualsIgnoreCase(a, b)
  {
    if |a| == |b| {
      assert Lower(a)[i] != Lower(b)[i];
    }
  }

  /** Length and the first two characters up to case: enough to tell the enum display names apart. */
  function CaseKey(s: string): (int, char, char)
    requires |s| >= 2
  {
    (|s|, LowerChar(s[0]), LowerChar(s[1]))
  }

  /** Strings equal ignoring case have the same case key. */
  lemma EqualIgnoringCaseSameKey(a: string, b: string)
    requires EqualsIgnoreCase(a, b) && |a| >= 2
    ensures |b| >= 2 && CaseKey(a) == CaseKey(b)
  {
    assert |Lower(a)| == |a| && |Lower(b)| == |b|;
    assert Lower(a)[0] == Lower(b)[0] && Lower(a)[1] == Lower(b)[1];
  }

  /** `String.contains`: `t` occurs in `s` as a contiguous block (the empty string occurs everywhere). */
  predicate Contains(s: string, t: string)
    decreases |s|
  {
    t <= s || (s != [] && Contains(s[1..], t))
  }

  /** `Contains` agrees with the definition by an explicit starting position. */
  lemma {:induction false} ContainsIffOccurs(s: string, t: string)
    ensures Contains(s, t) <==> exists i :: 0 <= i <= |s| && t <= s[i..]
  {
    if t <= s {
      assert t <= s[0..];
    } else if s == [] {
      forall i | 0 <= i <= |s| ensures !(t <= s[i..]) {
        assert s[i..] == s;
      }
    } else {
      ContainsIffOccurs(s[1..], t);
      if Contains(s[1..], t) {
        var i :| 0 <= i <= |s[1..]| && t <= s[1..][i..];
        assert s[1..][i..] == s[i + 1..];
      } else {
        forall i | 0 <= i <= |s| ensures !(t <= s[i..]) {
          if i > 0 {
            assert s[1..][i - 1..] == s[i..];
          }
        }
      }
    }
  }

  /** Java's `trim` removes every leading and trailing character whose code is at most U+0020. */
  predicate IsTrimmed(c: char)
  {
    c <= ' '
  }

  function TrimStart(s: string): (r: string)
    ensures |r| <= |s| && r == s[|s| - |r|..]
    ensures r != [] ==> !IsTrimmed(r[0])
    ensures (forall i :: 0 <= i < |s| - |r| ==> IsTrimmed(s[i]))
  {
    if s != [] && IsTrimmed(s[0]) then TrimStart(s[1..]) else s
  }

  function TrimEnd(s: string): (r: string)
    ensures |r| <= |s| && r == s[..|r|]
    ensures r != [] ==> !IsTrimmed(r[|r| - 1])
    ensures (forall i :: |r| <= i < |s| ==> IsTrimmed(s[i]))
  {
    if s != [] && IsTrimmed(s[|s| - 1]) then TrimEnd(s[..|s| - 1]) else s
  }

  /** `String.trim`. */
  function Trim(s: string): string
  {
    TrimEnd(TrimStart(s))
  }

  /** `s.trim().isEmpty()`. */
  predicate IsBlank(s: string)
  {
    Trim(s) == []
  }

  /** A string is blank exactly when every character of it is one that `trim` removes. */
  lemma BlankIffAllTrimmed(s: string)
    ensures IsBlank(s) <==> forall i :: 0 <= i < |s| ==> IsTrimmed(s[i])
  {
    var a := TrimStart(s);
    if a != [] {
      assert !IsTrimmed(TrimEnd(a)[0]) by { assert a[0] == TrimEnd(a)[0]; }
      assert !IsTrimmed(s[|s| - |a|]);
    }
  }

  /** The digit character for 0..9. */
  function DigitChar(d: nat): char
    requires d < 10
  {
    ('0' as int + d) as char
  }

  /** The numeric value of a digit character. */
  function DigitValue(c: char): int
  {
    c as int - '0' as int
  }

  /** Decimal notation of a natural number, without leading zeros. */
  function Decimal(n: nat): (r: string)
    ensures 1 <= |r|
    decreases n
  {
    if n < 10 then [DigitChar(n)] else Decimal(n / 10) + [DigitChar(n % 10)]
  }

  /** `k` zero characters. */
  function Zeros(k: int): string
    decreases k
  {
    if k <= 0 then [] else Zeros(k - 1) + ['0']
  }

  /** `String.format("%06d", n)` for a non-negative n: padded on the left with zeros to six characters. */
  function ZeroPad6(n: nat): string
  {
    Zeros(6 - |Decimal(n)|) + Decimal(n)
  }

  /** Reads a string of decimal digits (most significant first) back as a number. */
  function ParseDecimal(s: string): int
  {
    if s == [] then 0 else ParseDecimal(s[..|s| - 1]) * 10 + DigitValue(s[|s| - 1])
  }

  lemma {:induction false} ParseDecimalOfDecimal(n: nat)
    ensures ParseDecimal(Decimal(n)) == n
    decreases n
  {
    if n >= 10 {
      var d := Decimal(n / 10) + [DigitChar(n % 10)];
      assert d[..|d| - 1] == Decimal(n / 10);
      ParseDecimalOfDecimal(n / 10);
    }
  }

  lemma {:induction false} ParseDecimalLeadingZeros(k: int, s: string)
    ensures ParseDecimal(Zeros(k) + s) == ParseDecimal(s)
    decreases |s|, k
  {
    if s == [] {
      assert Zeros(k) + s == Zeros(k);
      if k > 0 {
        assert Zeros(k)[..|Zeros(k)| - 1] == Zeros(k - 1);
        ParseDecimalLeadingZeros(k - 1, s);
        assert Zeros(k - 1) + s == Zeros(k - 1);
      }
    } else {
      var z := Zeros(k) + s;
      assert z[..|z| - 1] == Zeros(k) + s[..|s| - 1];
      ParseDecimalLeadingZeros(k, s[..|s| - 1]);
    }
  }

  /** Zero padding loses nothing: the number can be read back from its padded form. */
  lemma ZeroPad6RoundTrip(n: nat)
    ensures ParseDecimal(ZeroPad6(n)) == n
  {
    ParseDecimalLeadingZeros(6 - |Decimal(n)|, Decimal(n));
    ParseDecimalOfDecimal(n);
  }

  /** Distinct numbers have distinct padded forms behind any common prefix. */
  lemma PrefixedZeroPad6Injective(prefix: string, a: nat, b: nat)
    requires prefix + ZeroPad6(a) == prefix + ZeroPad6(b)
    ensures a == b
  {
    assert ZeroPad6(a) == (prefix + ZeroPad6(a))[|prefix|..];
    assert ZeroPad6(b) == (prefix + ZeroPad6(b))[|prefix|..];
    ZeroPad6RoundTrip(a);
    ZeroPad6RoundTrip(b);
  }

  lemma {:induction false} DecimalLength(n: nat, k: nat, bound: nat)
    requires n < bound && bound == Power10(k) && k >= 1
    ensures |Decimal(n)| <= k
    decreases k
  {
    if n >= 10 {
      assert k >= 2;
      assert n / 10 < Power10(k - 1);
      DecimalLength(n / 10, k - 1, Power10(k - 1));
    }
  }

  function Power10(k: nat): nat
  {
    if k == 0 then 1 else 10 * Power10(k - 1)
  }

  lemma ZerosLength(k: int)
    ensures |Zeros(k)| == if k <= 0 then 0 else k
  {
  }

  /** Below one million the padded form has exactly six characters. */
  lemma ZeroPad6Length(n: nat)
    requires n < 1000000
    ensures |ZeroPad6(n)| == 6
  {
    assert Power10(6) == 1000000;
    DecimalLength(n, 6, 1000000);
    ZerosLength(6 - |Decimal(n)|);
  }
}
