/** Positional numerals, the reference for both number renderers (svc/fmt.c:61-73,
    svc/ymodem.c:64-72). */
module Numerals {

  /** The digits of @p v, most significant first. */
  function Digits(v: nat, base: nat): (d: seq<nat>)
    requires base >= 2
    ensures |d| >= 1 && forall i :: 0 <= i < |d| ==> d[i] < base
    decreases v
  {
    if v < base then [v] else
      Shrinks(v, base);
      Digits(v / base, base) + [v % base]
  }

  /** The number a digit sequence denotes. */
  function Value(d: seq<nat>, base: nat): nat
    decreases |d|
  {
    if d == [] then 0 else Value(d[..|d| - 1], base) * base + d[|d| - 1]
  }

  function Pow(base: nat, k: nat): nat { if k == 0 then 1 else base * Pow(base, k - 1) }

  lemma {:induction false} ParsesBack(v: nat, base: nat)
    requires base >= 2
    ensures Value(Digits(v, base), base) == v
    decreases v
  {
    hide Value;
    NothingIsZero(base);
    if v < base {
      ValuePush([], v, base);
      assert [] + [v] == [v];
    } else {
      Shrinks(v, base);
      ParsesBack(v / base, base);
      ValuePush(Digits(v / base, base), v % base, base);
      Division(v, base);
    }
  }

  lemma NothingIsZero(base: nat)
    ensures Value([], base) == 0
  {
  }

  lemma ValuePush(d: seq<nat>, x: nat, base: nat)
    ensures Value(d + [x], base) == Value(d, base) * base + x
  {
    assert (d + [x])[..|d|] == d;
  }

  lemma Division(v: nat, b: nat)
    requires b > 0
    ensures (v / b) * b + v % b == v
  {
  }

  /** A number below base^k has at most k digits. */
  lemma {:induction false} FewDigits(v: nat, base: nat, k: nat)
    requires base >= 2 && k >= 1 && v < Pow(base, k)
    ensures |Digits(v, base)| <= k
    decreases k
  {
    if v < base {
    } else {
      assert Pow(base, 1) == base * Pow(base, 0) == base;
      assert k > 1;
      Quotient(v, base, Pow(base, k - 1));
      FewDigits(v / base, base, k - 1);
    }
  }

  lemma Quotient(v: nat, b: nat, p: nat)
    requires b > 0 && v < b * p
    ensures v / b < p
  {
    assert v == b * (v / b) + v % b;
    assert b * (p - v / b) == b * p - b * (v / b) > 0;
  }

  lemma Shrinks(v: nat, b: nat)
    requires 2 <= b <= v
    ensures 0 < v / b < v && v % b < b
  {
    var q := v / b;
    assert v == b * q + v % b;
    assert (b - 2) * q >= 0;
  }

  /** The digits of a number above its base, one digit off. */
  lemma DigitsStep(v: nat, base: nat)
    requires 2 <= base <= v
    ensures 0 < v / base < v && v % base < base && Digits(v, base) == Digits(v / base, base) + [v % base]
  {
    Shrinks(v, base);
  }

  /** No leading zero, but for zero itself. */
  lemma {:induction false} NoLeadingZero(v: nat, base: nat)
    requires base >= 2
    ensures Digits(v, base)[0] == 0 <==> v == 0
    decreases v
  {
    if v < base {
    } else {
      DigitsStep(v, base);
      hide Digits;
      NoLeadingZero(v / base, base);
    }
  }

  function Backwards(s: seq<nat>): (r: seq<nat>)
    ensures |r| == |s| && forall i :: 0 <= i < |s| ==> r[i] == s[|s| - 1 - i]
  {
    seq(|s|, i requires 0 <= i < |s| => s[|s| - 1 - i])
  }

  /** Midway through a renderer: @p v is left of @p v0, and @p low are the digits taken
      off, last one first. */
  ghost predicate Peeled(v0: nat, v: nat, base: nat, low: seq<nat>)
    requires base >= 2
  {
    Digits(v0, base) == (if v == 0 then [] else Digits(v, base)) + Backwards(low)
  }

  lemma PeelOne(v0: nat, v: nat, base: nat, low: seq<nat>)
    requires base >= 2 && Digits(v0, base) == Digits(v, base) + Backwards(low)
    ensures Peeled(v0, v / base, base, low + [v % base])
    ensures |low| < |Digits(v0, base)|
  {
    assert Backwards(low + [v % base]) == [v % base] + Backwards(low);
    if v < base {
      SmallQuotient(v, base);
    } else {
      Shrinks(v, base);
      assert Digits(v, base) == Digits(v / base, base) + [v % base];
      assert Digits(v / base, base) + ([v % base] + Backwards(low)) == Digits(v, base) + Backwards(low);
    }
  }

  lemma SmallQuotient(v: nat, b: nat)
    requires v < b
    ensures v / b == 0 && v % b == v
  {
  }

  /** The digit loop of both renderers: the digits of @p v into @p tmp, last one first. */
  method Peel(v: nat, base: nat, tmp: array<nat>) returns (n: nat)
    requires base >= 2 && |Digits(v, base)| <= tmp.Length
    modifies tmp
    ensures n == |Digits(v, base)| && Backwards(tmp[..n]) == Digits(v, base)
  {
    var w := v;
    n := 0;
    assert Backwards([]) == [];
    PeelOne(v, v, base, []);
    tmp[0], n, w := v % base, 1, v / base;
    assert tmp[..1] == [] + [v % base];
    while w != 0
      invariant 0 < n <= tmp.Length && w >= 0 && Peeled(v, w, base, tmp[..n])
      decreases w
    {
      PeelOne(v, w, base, tmp[..n]);
      if w < base { SmallQuotient(w, base); } else { Shrinks(w, base); }
      ghost var low := tmp[..n];
      tmp[n], n, w := w % base, n + 1, w / base;
      assert tmp[..n] == low + [tmp[n - 1]];
    }
  }
}
