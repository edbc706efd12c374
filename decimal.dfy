/** Decimal text as Python renders it: `str(n)`, the format `'{0:03d}'`, and the dotted game
    version strings `'M.m.p'` / `'M.m.p.d'`, each with the parser that reads it back. */
module Decimal {
  import opened Wrappers

  predicate IsDigit(c: char) {
    '0' <= c <= '9'
  }

  predicate AllDigits(s: string) {
    forall k :: 0 <= k < |s| ==> IsDigit(s[k])
  }

  function DigitChar(d: nat): (c: char)
    requires d < 10
    ensures IsDigit(c)
  {
    ('0' as int + d) as char
  }

  function DigitValue(c: char): (d: nat)
    requires IsDigit(c)
    ensures d < 10
  {
    c as int - '0' as int
  }

  /** Python's `str(n)` for a non-negative integer: its decimal digits, without leading zeros. */
  function Show(n: nat): (r: string)
    ensures |r| > 0 && AllDigits(r)
    decreases n
  {
    if n < 10 then [DigitChar(n)] else Show(n / 10) + [DigitChar(n % 10)]
  }

  /** `str(n)` of a positive number does not start with '0'. */
  lemma {:induction false} ShowNoLeadingZero(n: nat)
    requires n > 0
    ensures Show(n)[0] != '0'
    decreases n
  {
    if n >= 10 {
      ShowNoLeadingZero(n / 10);
    }
  }

  /** Python's `str(i)` for any integer. */
  function ShowInt(i: int): (r: string)
    ensures |r| > 0
    ensures i >= 0 ==> r == Show(i)
    ensures i < 0 ==> r == "-" + Show(-i)
  {
    if i < 0 then "-" + Show(-i) else Show(i)
  }

  /** The number written by a string of digits (leading zeros allowed). */
  function DigitsValue(s: string): nat
    requires AllDigits(s)
  {
    if |s| == 0 then 0 else DigitsValue(s[..|s| - 1]) * 10 + DigitValue(s[|s| - 1])
  }

  /** Reads back a non-empty string of decimal digits. */
  function ParseNat(s: string): (r: Option<nat>)
    ensures r.Some? <==> |s| > 0 && AllDigits(s)
  {
    if |s| > 0 && AllDigits(s) then Some(DigitsValue(s)) else None
  }

  /** `str` and `ParseNat` are inverse. */
  lemma {:induction false} ParseShow(n: nat)
    ensures ParseNat(Show(n)) == Some(n)
    decreases n
  {
    var s := Show(n);
    if n >= 10 {
      assert s[..|s| - 1] == Show(n / 10);
      ParseShow(n / 10);
    } else {
      assert s[..|s| - 1] == [];
    }
    assert DigitsValue(s) == n;
  }

  /** `str(i)` reads back as `i`: its digits give `i` itself, or `-i` after the minus sign of a
      negative number. */
  lemma ShowIntReadsBack(i: int)
    ensures i >= 0 ==> ParseNat(ShowInt(i)) == Some(i)
    ensures i < 0 ==> ShowInt(i)[0] == '-' && ParseNat(ShowInt(i)[1..]) == Some(-i)
  {
    if i < 0 {
      ParseShow(-i);
      assert ShowInt(i)[1..] == Show(-i);
    } else {
      ParseShow(i);
    }
  }

  function Zeros(k: int): (r: string)
    ensures |r| == if k < 0 then 0 else k
    ensures forall j :: 0 <= j < |r| ==> r[j] == '0'
  {
    seq(if k < 0 then 0 else k, _ => '0')
  }

  /** Leading zeros do not change the number a digit string writes. */
  lemma {:induction false} LeadingZeros(k: nat, s: string)
    requires AllDigits(s)
    ensures AllDigits(Zeros(k) + s) && DigitsValue(Zeros(k) + s) == DigitsValue(s)
    decreases |s| + k
  {
    var z := Zeros(k) + s;
    if |s| > 0 {
      assert z[..|z| - 1] == Zeros(k) + s[..|s| - 1];
      LeadingZeros(k, s[..|s| - 1]);
    } else if k > 0 {
      assert z[..|z| - 1] == Zeros(k - 1) + s;
      LeadingZeros(k - 1, s);
    }
  }

  /** Python's `'{0:03d}'.format(i)`: the decimal digits of `i`, with a leading minus sign when
      `i` is negative, zero-padded after the sign to a total width of at least 3. */
  function Pad3(i: int): string
  {
    var sign := if i < 0 then "-" else "";
    var digits := Show(if i < 0 then -i else i);
    sign + Zeros(3 - |sign| - |digits|) + digits
  }

  /** `Pad3` keeps the value: its digits read back as `i` (after the sign when negative), it is
      at least three characters long, and no longer than the sign and `str(|i|)` need. */
  lemma Pad3ReadsBack(i: int)
    ensures |Pad3(i)| >= 3
    ensures i >= 0 ==> |Pad3(i)| == (if |Show(i)| < 3 then 3 else |Show(i)|)
    ensures i >= 0 ==> ParseNat(Pad3(i)) == Some(i)
    ensures i < 0 ==> Pad3(i)[0] == '-' && ParseNat(Pad3(i)[1..]) == Some(-i)
    ensures i < 0 ==> |Pad3(i)| == (if 1 + |Show(-i)| < 3 then 3 else 1 + |Show(-i)|)
  {
    if i < 0 {
      Pad3Negative(i);
    } else {
      Pad3NonNegative(i);
    }
  }

  lemma Pad3NonNegative(n: nat)
    ensures |Pad3(n)| == (if |Show(n)| < 3 then 3 else |Show(n)|)
    ensures ParseNat(Pad3(n)) == Some(n)
  {
    var z := Zeros(3 - |Show(n)|);
    assert Pad3(n) == z + Show(n);
    LeadingZeros(|z|, Show(n));
    ParseShow(n);
  }

  lemma Pad3Negative(i: int)
    requires i < 0
    ensures |Pad3(i)| >= 3
    ensures Pad3(i)[0] == '-' && ParseNat(Pad3(i)[1..]) == Some(-i)
    ensures |Pad3(i)| == (if 1 + |Show(-i)| < 3 then 3 else 1 + |Show(-i)|)
  {
    var n: nat := -i;
    var z := Zeros(2 - |Show(n)|);
    assert Pad3(i) == "-" + (z + Show(n));
    assert Pad3(i)[1..] == z + Show(n);
    LeadingZeros(|z|, Show(n));
    ParseShow(n);
  }

  /** The game version as the code renders it: `f'{M}.{m}.{p}'`, followed by `f'.{d}'` only
      when the development number `d` is not 0. */
  function VersionString(major: nat, minor: nat, patch: nat, dev: nat): string
  {
    var base := Show(major) + "." + Show(minor) + "." + Show(patch);
    if dev != 0 then base + "." + Show(dev) else base
  }

  /** Splits a string at every '.'. */
  function SplitDots(s: string): (parts: seq<string>)
    ensures |parts| >= 1
    decreases |s|
  {
    if |s| == 0 then [""]
    else if s[0] == '.' then [""] + SplitDots(s[1..])
    else
      var rest := SplitDots(s[1..]);
      [[s[0]] + rest[0]] + rest[1..]
  }

  function ParseAll(parts: seq<string>): (r: Option<seq<nat>>)
    ensures r.Some? ==> |r.value| == |parts|
  {
    if |parts| == 0 then Some([])
    else
      match (ParseNat(parts[0]), ParseAll(parts[1..]))
      case (Some(n), Some(ns)) => Some([n] + ns)
      case _ => None
  }

  /** Reads a dotted version string back into its numbers. */
  function ParseDotted(s: string): Option<seq<nat>>
  {
    ParseAll(SplitDots(s))
  }

  lemma {:induction false} SplitNoDot(x: string)
    requires '.' !in x
    ensures SplitDots(x) == [x]
    decreases |x|
  {
    if |x| > 0 {
      SplitNoDot(x[1..]);
      assert [x[0]] + x[1..] == x;
    }
  }

  lemma {:induction false} SplitAtDot(x: string, y: string)
    requires '.' !in x
    ensures SplitDots(x + "." + y) == [x] + SplitDots(y)
    decreases |x|
  {
    var s := x + "." + y;
    if |x| > 0 {
      assert s[1..] == x[1..] + "." + y;
      SplitAtDot(x[1..], y);
      assert [x[0]] + x[1..] == x;
    } else {
      assert s[1..] == y;
    }
  }

  lemma DigitsHaveNoDot(n: nat)
    ensures '.' !in Show(n)
  {
  }

  function Shows(ns: seq<nat>): (r: seq<string>)
    ensures |r| == |ns|
  {
    seq(|ns|, k requires 0 <= k < |ns| => Show(ns[k]))
  }

  lemma {:induction false} ParseAllShows(ns: seq<nat>)
    ensures ParseAll(Shows(ns)) == Some(ns)
    decreases |ns|
  {
    if |ns| > 0 {
      ParseShow(ns[0]);
      assert Shows(ns)[1..] == Shows(ns[1..]);
      ParseAllShows(ns[1..]);
      assert [ns[0]] + ns[1..] == ns;
    }
  }

  /** A dotted string of three or four dot-free parts splits back into those parts. */
  lemma SplitThree(a: string, b: string, c: string)
    requires '.' !in a && '.' !in b && '.' !in c
    ensures SplitDots(a + "." + b + "." + c) == [a, b, c]
  {
    assert a + "." + b + "." + c == a + "." + (b + "." + c);
    SplitAtDot(a, b + "." + c);
    SplitAtDot(b, c);
    SplitNoDot(c);
  }

  lemma SplitFour(a: string, b: string, c: string, d: string)
    requires '.' !in a && '.' !in b && '.' !in c && '.' !in d
    ensures SplitDots(a + "." + b + "." + c + "." + d) == [a, b, c, d]
  {
    var rest := b + "." + c + "." + d;
    assert a + "." + b + "." + c + "." + d == a + "." + rest;
    SplitAtDot(a, rest);
    SplitThree(b, c, d);
  }

  /** The version string reads back as exactly its three numbers, or four when the development
      number is not 0. */
  lemma ParseVersionString(major: nat, minor: nat, patch: nat, dev: nat)
    ensures ParseDotted(VersionString(major, minor, patch, dev))
         == Some([major, minor, patch] + (if dev != 0 then [dev] else []))
  {
    DigitsHaveNoDot(major); DigitsHaveNoDot(minor); DigitsHaveNoDot(patch); DigitsHaveNoDot(dev);
    var ns := [major, minor, patch] + (if dev != 0 then [dev] else []);
    if dev != 0 {
      SplitFour(Show(major), Show(minor), Show(patch), Show(dev));
      assert Shows(ns) == [Show(major), Show(minor), Show(patch), Show(dev)];
    } else {
      SplitThree(Show(major), Show(minor), Show(patch));
      assert Shows(ns) == [Show(major), Show(minor), Show(patch)];
    }
    ParseAllShows(ns);
  }
}
