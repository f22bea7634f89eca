/** Numbers in decimal notation and where they stand in a text. */
module Decimals {
  import opened Basics

  function DigitValue(c: char): (d: nat)
    requires IsAsciiDigit(c)
    ensures d < 10
  {
    c as int - '0' as int
  }

  function DigitChar(d: nat): (c: char)
    requires d < 10
    ensures IsAsciiDigit(c) && DigitValue(c) == d && (c == '0' <==> d == 0)
  {
    ('0' as int + d) as char
  }

  predicate AllDigits(s: seq<char>) { forall i :: 0 <= i < |s| ==> IsAsciiDigit(s[i]) }

  function Value(s: seq<char>): nat
    requires AllDigits(s)
  {
    if s == [] then 0 else 10 * Value(s[..|s| - 1]) + DigitValue(s[|s| - 1])
  }

  function Decimal(n: nat): (s: seq<char>)
    ensures s != [] && AllDigits(s)
    ensures s[0] == '0' <==> n == 0
  {
    if n < 10 then [DigitChar(n)] else Decimal(n / 10) + [DigitChar(n % 10)]
  }

  lemma {:induction false} ValueOfDecimal(n: nat)
    ensures Value(Decimal(n)) == n
  {
    if n >= 10 {
      ValueOfDecimal(n / 10);
      assert Decimal(n)[..|Decimal(n)| - 1] == Decimal(n / 10);
    } else {
      assert Decimal(n)[..0] == [];
    }
  }

  /** Where the digits from `p` on end. */
  function RunEnd(s: seq<char>, p: nat): (e: nat)
    requires p <= |s|
    ensures p <= e <= |s| && AllDigits(s[p..e])
    ensures e < |s| ==> !IsAsciiDigit(s[e])
    decreases |s| - p
  {
    if p < |s| && IsAsciiDigit(s[p]) then
      var e := RunEnd(s, p + 1);
      assert s[p..e] == [s[p]] + s[p + 1..e];
      e
    else p
  }

  lemma {:induction false} RunEndIs(s: seq<char>, p: nat, e: nat)
    requires p <= e <= |s| && AllDigits(s[p..e]) && (e < |s| ==> !IsAsciiDigit(s[e]))
    ensures RunEnd(s, p) == e
    decreases e - p
  {
    if p < e {
      assert s[p] == s[p..e][0];
      assert s[p + 1..e] == s[p..e][1..];
      RunEndIs(s, p + 1, e);
    }
  }

  /** The longest number at `p`, unless it does not fit a machine word, and where it ends. */
  function NumberAt(s: seq<char>, p: nat): (r: (Option<nat>, nat))
    requires p < |s| && IsAsciiDigit(s[p])
    ensures p < r.1 <= |s| && (r.0.Some? ==> r.0.value < USIZE_VALUES)
  {
    var e := RunEnd(s, p);
    var v := Value(s[p..e]);
    (if v < USIZE_VALUES then Some(v) else None, e)
  }

  predicate TextAt(s: seq<char>, p: nat, t: seq<char>) { p + |t| <= |s| && s[p..p + |t|] == t }

  lemma TextAtSplit(s: seq<char>, p: nat, t: seq<char>, u: seq<char>)
    ensures TextAt(s, p, t + u) <==> TextAt(s, p, t) && TextAt(s, p + |t|, u)
  {
    if TextAt(s, p, t + u) {
      assert s[p..p + |t|] == s[p..p + |t + u|][..|t|];
      assert s[p + |t|..p + |t| + |u|] == s[p..p + |t + u|][|t|..];
    }
    if TextAt(s, p, t) && TextAt(s, p + |t|, u) {
      assert s[p..p + |t + u|] == s[p..p + |t|] + s[p + |t|..p + |t| + |u|];
    }
  }

  lemma TextAtOne(s: seq<char>, p: nat, c: char)
    ensures TextAt(s, p, [c]) <==> p < |s| && s[p] == c
  {
  }

  /** A printed number is read back. Its first character is a digit, which is zero for zero alone. */
  lemma {:induction false} NumberRead(s: seq<char>, p: nat, n: nat)
    requires TextAt(s, p, Decimal(n)) && n < USIZE_VALUES
    requires p + |Decimal(n)| < |s| ==> !IsAsciiDigit(s[p + |Decimal(n)|])
    ensures p < |s| && IsAsciiDigit(s[p]) && (s[p] == '0' <==> n == 0)
    ensures NumberAt(s, p) == (Some(n), p + |Decimal(n)|)
  {
    var e := p + |Decimal(n)|;
    assert s[p] == s[p..e][0];
    RunEndIs(s, p, e);
    ValueOfDecimal(n);
  }
}
