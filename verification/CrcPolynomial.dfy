/** The CRC as polynomial division over the field of two elements: the sender's register
    (svc/ymodem.c:51-61) ends up holding the remainder of the message times x^16 modulo
    x^16 + x^12 + x^5 + 1, the CRC-16 of YMODEM. Nothing below mentions how the register
    moves; polynomials are told by their coefficients. */
module CrcPolynomial {
  import opened Crc16

  /** Bit @p k of a word, the coefficient of x^k. */
  predicate Bit(c: bv16, k: int) {
    match k
    case 0 => c & 0x0001 != 0
    case 1 => c & 0x0002 != 0
    case 2 => c & 0x0004 != 0
    case 3 => c & 0x0008 != 0
    case 4 => c & 0x0010 != 0
    case 5 => c & 0x0020 != 0
    case 6 => c & 0x0040 != 0
    case 7 => c & 0x0080 != 0
    case 8 => c & 0x0100 != 0
    case 9 => c & 0x0200 != 0
    case 10 => c & 0x0400 != 0
    case 11 => c & 0x0800 != 0
    case 12 => c & 0x1000 != 0
    case 13 => c & 0x2000 != 0
    case 14 => c & 0x4000 != 0
    case 15 => c & 0x8000 != 0
    case _ => false
  }

  /** The coefficient of x^k of a polynomial written from its highest coefficient down. */
  predicate Coef(p: seq<bool>, k: int) { 0 <= k < |p| && p[|p| - 1 - k] }

  /** The coefficient of x^k of a message: its bytes are sent first to last, each from its
      highest bit down. */
  predicate MessageCoef(s: seq<octet>, k: int) {
    0 <= k < 8 * |s| && Bit(s[|s| - 1 - k / 8] as bv16, k % 8)
  }

  /** The coefficient of x^k of @p q times x^16 + x^12 + x^5 + 1. */
  predicate TimesGenerator(q: seq<bool>, k: int) {
    (Coef(q, k - 16) != Coef(q, k - 12)) != (Coef(q, k - 5) != Coef(q, k))
  }

  /** The message times x^16 is @p q times the generator plus @p r. */
  ghost predicate Divides(s: seq<octet>, q: seq<bool>, r: bv16) {
    |q| == 8 * |s| && forall k :: 0 <= k < 8 * |s| + 16 ==> MessageCoef(s, k - 16) == (TimesGenerator(q, k) != Bit(r, k))
  }

  /** The same for a polynomial given by its coefficients. */
  ghost predicate BitsDivide(bits: seq<bool>, q: seq<bool>, r: bv16) {
    |q| == |bits| && forall k :: 0 <= k < |bits| + 16 ==> Coef(bits, k - 16) == (TimesGenerator(q, k) != Bit(r, k))
  }

  // ---- one step of the division ---------------------------------------------------

  lemma DoubledBits(c: bv16)
    ensures !Bit(Shl(c), 0)
    ensures Bit(Shl(c), 1) == Bit(c, 0)
    ensures Bit(Shl(c), 2) == Bit(c, 1)
    ensures Bit(Shl(c), 3) == Bit(c, 2)
    ensures Bit(Shl(c), 4) == Bit(c, 3)
    ensures Bit(Shl(c), 5) == Bit(c, 4)
    ensures Bit(Shl(c), 6) == Bit(c, 5)
    ensures Bit(Shl(c), 7) == Bit(c, 6)
    ensures Bit(Shl(c), 8) == Bit(c, 7)
    ensures Bit(Shl(c), 9) == Bit(c, 8)
    ensures Bit(Shl(c), 10) == Bit(c, 9)
    ensures Bit(Shl(c), 11) == Bit(c, 10)
    ensures Bit(Shl(c), 12) == Bit(c, 11)
    ensures Bit(Shl(c), 13) == Bit(c, 12)
    ensures Bit(Shl(c), 14) == Bit(c, 13)
    ensures Bit(Shl(c), 15) == Bit(c, 14)
  {
  }

  lemma BitMasks(c: bv16)
    ensures Bit(c, 0) == (c & 0x0001 != 0)
    ensures Bit(c, 1) == (c & 0x0002 != 0)
    ensures Bit(c, 2) == (c & 0x0004 != 0)
    ensures Bit(c, 3) == (c & 0x0008 != 0)
    ensures Bit(c, 4) == (c & 0x0010 != 0)
    ensures Bit(c, 5) == (c & 0x0020 != 0)
    ensures Bit(c, 6) == (c & 0x0040 != 0)
    ensures Bit(c, 7) == (c & 0x0080 != 0)
    ensures Bit(c, 8) == (c & 0x0100 != 0)
    ensures Bit(c, 9) == (c & 0x0200 != 0)
    ensures Bit(c, 10) == (c & 0x0400 != 0)
    ensures Bit(c, 11) == (c & 0x0800 != 0)
    ensures Bit(c, 12) == (c & 0x1000 != 0)
    ensures Bit(c, 13) == (c & 0x2000 != 0)
    ensures Bit(c, 14) == (c & 0x4000 != 0)
    ensures Bit(c, 15) == (c & 0x8000 != 0)
  {
  }

  lemma ReducedBits(d: bv16)
    ensures Bit(Xor(d, 0x1021), 0) == !Bit(d, 0)
    ensures Bit(Xor(d, 0x1021), 1) == Bit(d, 1)
    ensures Bit(Xor(d, 0x1021), 2) == Bit(d, 2)
    ensures Bit(Xor(d, 0x1021), 3) == Bit(d, 3)
    ensures Bit(Xor(d, 0x1021), 4) == Bit(d, 4)
    ensures Bit(Xor(d, 0x1021), 5) == !Bit(d, 5)
    ensures Bit(Xor(d, 0x1021), 6) == Bit(d, 6)
    ensures Bit(Xor(d, 0x1021), 7) == Bit(d, 7)
    ensures Bit(Xor(d, 0x1021), 8) == Bit(d, 8)
    ensures Bit(Xor(d, 0x1021), 9) == Bit(d, 9)
    ensures Bit(Xor(d, 0x1021), 10) == Bit(d, 10)
    ensures Bit(Xor(d, 0x1021), 11) == Bit(d, 11)
    ensures Bit(Xor(d, 0x1021), 12) == !Bit(d, 12)
    ensures Bit(Xor(d, 0x1021), 13) == Bit(d, 13)
    ensures Bit(Xor(d, 0x1021), 14) == Bit(d, 14)
    ensures Bit(Xor(d, 0x1021), 15) == Bit(d, 15)
  {
    hide Xor, Bit;
    BitMasks(d);
    BitMasks(Xor(d, 0x1021));
    ReducedMasks(d);
  }

  lemma ReducedMasks(d: bv16)
    ensures (Xor(d, 0x1021) & 0x0001 != 0) == (d & 0x0001 == 0)
    ensures (Xor(d, 0x1021) & 0x0002 != 0) == (d & 0x0002 != 0)
    ensures (Xor(d, 0x1021) & 0x0004 != 0) == (d & 0x0004 != 0)
    ensures (Xor(d, 0x1021) & 0x0008 != 0) == (d & 0x0008 != 0)
    ensures (Xor(d, 0x1021) & 0x0010 != 0) == (d & 0x0010 != 0)
    ensures (Xor(d, 0x1021) & 0x0020 != 0) == (d & 0x0020 == 0)
    ensures (Xor(d, 0x1021) & 0x0040 != 0) == (d & 0x0040 != 0)
    ensures (Xor(d, 0x1021) & 0x0080 != 0) == (d & 0x0080 != 0)
    ensures (Xor(d, 0x1021) & 0x0100 != 0) == (d & 0x0100 != 0)
    ensures (Xor(d, 0x1021) & 0x0200 != 0) == (d & 0x0200 != 0)
    ensures (Xor(d, 0x1021) & 0x0400 != 0) == (d & 0x0400 != 0)
    ensures (Xor(d, 0x1021) & 0x0800 != 0) == (d & 0x0800 != 0)
    ensures (Xor(d, 0x1021) & 0x1000 != 0) == (d & 0x1000 == 0)
    ensures (Xor(d, 0x1021) & 0x2000 != 0) == (d & 0x2000 != 0)
    ensures (Xor(d, 0x1021) & 0x4000 != 0) == (d & 0x4000 != 0)
    ensures (Xor(d, 0x1021) & 0x8000 != 0) == (d & 0x8000 != 0)
  {
  }

  lemma RaisedBits(c: bv16)
    ensures Bit(Xor(c, 0x8000), 0) == Bit(c, 0)
    ensures Bit(Xor(c, 0x8000), 1) == Bit(c, 1)
    ensures Bit(Xor(c, 0x8000), 2) == Bit(c, 2)
    ensures Bit(Xor(c, 0x8000), 3) == Bit(c, 3)
    ensures Bit(Xor(c, 0x8000), 4) == Bit(c, 4)
    ensures Bit(Xor(c, 0x8000), 5) == Bit(c, 5)
    ensures Bit(Xor(c, 0x8000), 6) == Bit(c, 6)
    ensures Bit(Xor(c, 0x8000), 7) == Bit(c, 7)
    ensures Bit(Xor(c, 0x8000), 8) == Bit(c, 8)
    ensures Bit(Xor(c, 0x8000), 9) == Bit(c, 9)
    ensures Bit(Xor(c, 0x8000), 10) == Bit(c, 10)
    ensures Bit(Xor(c, 0x8000), 11) == Bit(c, 11)
    ensures Bit(Xor(c, 0x8000), 12) == Bit(c, 12)
    ensures Bit(Xor(c, 0x8000), 13) == Bit(c, 13)
    ensures Bit(Xor(c, 0x8000), 14) == Bit(c, 14)
    ensures Bit(Xor(c, 0x8000), 15) == !Bit(c, 15)
  {
    hide Xor, Bit;
    BitMasks(c);
    BitMasks(Xor(c, 0x8000));
    RaisedMasks(c);
  }

  lemma RaisedMasks(c: bv16)
    ensures (Xor(c, 0x8000) & 0x0001 != 0) == (c & 0x0001 != 0)
    ensures (Xor(c, 0x8000) & 0x0002 != 0) == (c & 0x0002 != 0)
    ensures (Xor(c, 0x8000) & 0x0004 != 0) == (c & 0x0004 != 0)
    ensures (Xor(c, 0x8000) & 0x0008 != 0) == (c & 0x0008 != 0)
    ensures (Xor(c, 0x8000) & 0x0010 != 0) == (c & 0x0010 != 0)
    ensures (Xor(c, 0x8000) & 0x0020 != 0) == (c & 0x0020 != 0)
    ensures (Xor(c, 0x8000) & 0x0040 != 0) == (c & 0x0040 != 0)
    ensures (Xor(c, 0x8000) & 0x0080 != 0) == (c & 0x0080 != 0)
    ensures (Xor(c, 0x8000) & 0x0100 != 0) == (c & 0x0100 != 0)
    ensures (Xor(c, 0x8000) & 0x0200 != 0) == (c & 0x0200 != 0)
    ensures (Xor(c, 0x8000) & 0x0400 != 0) == (c & 0x0400 != 0)
    ensures (Xor(c, 0x8000) & 0x0800 != 0) == (c & 0x0800 != 0)
    ensures (Xor(c, 0x8000) & 0x1000 != 0) == (c & 0x1000 != 0)
    ensures (Xor(c, 0x8000) & 0x2000 != 0) == (c & 0x2000 != 0)
    ensures (Xor(c, 0x8000) & 0x4000 != 0) == (c & 0x4000 != 0)
    ensures (Xor(c, 0x8000) & 0x8000 != 0) == (c & 0x8000 == 0)
  {
  }

  lemma TByBit(c: bv16)
    ensures Bit(c, 15) ==> T(c) == Xor(Shl(c), 0x1021)
    ensures !Bit(c, 15) ==> T(c) == Shl(c)
  {
  }

  lemma ShiftedBits(c: bv16)
    ensures Bit(T(c), 0) == Bit(c, 15)
    ensures Bit(T(c), 1) == Bit(c, 0)
    ensures Bit(T(c), 2) == Bit(c, 1)
    ensures Bit(T(c), 3) == Bit(c, 2)
    ensures Bit(T(c), 4) == Bit(c, 3)
    ensures Bit(T(c), 5) == (Bit(c, 4) != Bit(c, 15))
    ensures Bit(T(c), 6) == Bit(c, 5)
    ensures Bit(T(c), 7) == Bit(c, 6)
    ensures Bit(T(c), 8) == Bit(c, 7)
    ensures Bit(T(c), 9) == Bit(c, 8)
    ensures Bit(T(c), 10) == Bit(c, 9)
    ensures Bit(T(c), 11) == Bit(c, 10)
    ensures Bit(T(c), 12) == (Bit(c, 11) != Bit(c, 15))
    ensures Bit(T(c), 13) == Bit(c, 12)
    ensures Bit(T(c), 14) == Bit(c, 13)
    ensures Bit(T(c), 15) == Bit(c, 14)
  {
    hide T, Bit, Xor, Shl;
    TByBit(c);
    DoubledBits(c);
    if Bit(c, 15) { ReducedBits(Shl(c)); }
  }

  /** A word times x, less the generator if that takes it to degree 16. */
  lemma ShiftedBit(c: bv16, k: nat)
    requires k < 16
    ensures Bit(T(c), k) == (Bit(c, k - 1) != (Bit(c, 15) && (k == 0 || k == 5 || k == 12)))
  {
    hide T, Bit;
    ShiftedBits(c);
    NoOtherBit(c, -1);
    match k
    case 0 =>
    case 1 =>
    case 2 =>
    case 3 =>
    case 4 =>
    case 5 =>
    case 6 =>
    case 7 =>
    case 8 =>
    case 9 =>
    case 10 =>
    case 11 =>
    case 12 =>
    case 13 =>
    case 14 =>
    case 15 =>
  }

  /** Adding x^15 moves that coefficient alone. */
  lemma AddedTop(c: bv16, k: int)
    ensures Bit(Xor(c, 0x8000), k) == (Bit(c, k) != (k == 15))
  {
    hide Xor, Bit;
    RaisedBits(c);
    if !(0 <= k < 16) {
      NoOtherBit(c, k);
      NoOtherBit(Xor(c, 0x8000), k);
    }
    match k
    case 0 =>
    case 1 =>
    case 2 =>
    case 3 =>
    case 4 =>
    case 5 =>
    case 6 =>
    case 7 =>
    case 8 =>
    case 9 =>
    case 10 =>
    case 11 =>
    case 12 =>
    case 13 =>
    case 14 =>
    case 15 =>
    case _ =>
  }

  lemma NoOtherBit(c: bv16, k: int)
    requires !(0 <= k < 16)
    ensures !Bit(c, k)
  {
  }

  lemma SameWord(a: bv16, b: bv16)
    requires forall k :: 0 <= k < 16 ==> Bit(a, k) == Bit(b, k)
    ensures a == b
  {
    hide Bit;
    assert Bit(a, 0) == Bit(b, 0) && Bit(a, 1) == Bit(b, 1);
    assert Bit(a, 2) == Bit(b, 2) && Bit(a, 3) == Bit(b, 3);
    assert Bit(a, 4) == Bit(b, 4) && Bit(a, 5) == Bit(b, 5);
    assert Bit(a, 6) == Bit(b, 6) && Bit(a, 7) == Bit(b, 7);
    assert Bit(a, 8) == Bit(b, 8) && Bit(a, 9) == Bit(b, 9);
    assert Bit(a, 10) == Bit(b, 10) && Bit(a, 11) == Bit(b, 11);
    assert Bit(a, 12) == Bit(b, 12) && Bit(a, 13) == Bit(b, 13);
    assert Bit(a, 14) == Bit(b, 14) && Bit(a, 15) == Bit(b, 15);
    BitsDecide(a, b);
  }

  lemma BitsDecide(a: bv16, b: bv16)
    requires Bit(a, 0) == Bit(b, 0) && Bit(a, 1) == Bit(b, 1)
    requires Bit(a, 2) == Bit(b, 2) && Bit(a, 3) == Bit(b, 3)
    requires Bit(a, 4) == Bit(b, 4) && Bit(a, 5) == Bit(b, 5)
    requires Bit(a, 6) == Bit(b, 6) && Bit(a, 7) == Bit(b, 7)
    requires Bit(a, 8) == Bit(b, 8) && Bit(a, 9) == Bit(b, 9)
    requires Bit(a, 10) == Bit(b, 10) && Bit(a, 11) == Bit(b, 11)
    requires Bit(a, 12) == Bit(b, 12) && Bit(a, 13) == Bit(b, 13)
    requires Bit(a, 14) == Bit(b, 14) && Bit(a, 15) == Bit(b, 15)
    ensures a == b
  {
  }

  lemma CoefPush(p: seq<bool>, t: bool, k: int)
    ensures Coef(p + [t], k) == if k == 0 then t else Coef(p, k - 1)
  {
  }

  lemma TimesPush(q: seq<bool>, t: bool, k: int)
    ensures TimesGenerator(q + [t], k) == (TimesGenerator(q, k - 1) != (t && k in {0, 5, 12, 16}))
  {
    hide Coef;
    NothingBelow(q);
    CoefPush(q, t, k);
    CoefPush(q, t, k - 5);
    CoefPush(q, t, k - 12);
    CoefPush(q, t, k - 16);
  }

  /** The quotient grows by the coefficient the register is about to lose. */
  lemma OneMore(init: seq<bool>, b: bool, q: seq<bool>, r: bv16)
    requires BitsDivide(init, q, r)
    ensures var c := if b then Xor(r, 0x8000) else r; BitsDivide(init + [b], q + [Bit(c, 15)], Feed(r, b))
  {
    hide Coef, Bit, T, Xor;
    NothingBelow(init);
    NothingBelow(q);
    NoOtherBit(r, -1);
    assert !TimesGenerator(q, -1);
    var c := if b then Xor(r, 0x8000) else r;
    var t := Bit(c, 15);
    forall k | 0 <= k < |init| + 17
      ensures Coef(init + [b], k - 16) == (TimesGenerator(q + [t], k) != Bit(Feed(r, b), k))
    {
      CoefPush(init, b, k - 16);
      TimesPush(q, t, k);
      assert Coef(init, k - 17) == (TimesGenerator(q, k - 1) != Bit(r, k - 1));
      if b { AddedTop(r, k - 1); AddedTop(r, 15); }
      if k < 16 { ShiftedBit(c, k); } else { NoOtherBit(Feed(r, b), k); }
      if k > 16 { NoOtherBit(r, k - 1); }
    }
  }

  lemma NothingBelow(p: seq<bool>)
    ensures forall k :: k < 0 ==> !Coef(p, k)
  {
  }

  /** The quotient the register never keeps. */
  function Quotient(bits: seq<bool>): (q: seq<bool>)
    ensures |q| == |bits|
  {
    if bits == [] then []
    else
      var n := |bits| - 1;
      var r := FeedAll(0, bits[..n]);
      Quotient(bits[..n]) + [Bit(if bits[n] then Xor(r, 0x8000) else r, 15)]
  }

  lemma {:induction false} FedIsRemainder(bits: seq<bool>)
    ensures BitsDivide(bits, Quotient(bits), FeedAll(0, bits))
  {
    hide Coef, TimesGenerator, Bit, Feed, Xor;
    if bits == [] {
      EmptyDivides();
    } else {
      var n := |bits| - 1;
      FedIsRemainder(bits[..n]);
      assert bits == bits[..n] + [bits[n]];
      FeedConcat(0, bits[..n], [bits[n]]);
      assert [bits[n]][1..] == [];
      OneMore(bits[..n], bits[n], Quotient(bits[..n]), FeedAll(0, bits[..n]));
    }
  }

  lemma EmptyDivides()
    ensures BitsDivide([], [], 0)
  {
  }

  // ---- the division has one result ---------------------------------------------------

  lemma {:induction false} SameQuotients(bits: seq<bool>, q1: seq<bool>, r1: bv16, q2: seq<bool>, r2: bv16, j: int)
    requires BitsDivide(bits, q1, r1) && BitsDivide(bits, q2, r2) && j >= 0
    ensures Coef(q1, j) == Coef(q2, j)
    decreases |bits| - j
  {
    hide Coef, Bit;
    if j >= |bits| {
      NothingAbove(q1, j);
      NothingAbove(q2, j);
    } else {
      SameQuotients(bits, q1, r1, q2, r2, j + 4);
      SameQuotients(bits, q1, r1, q2, r2, j + 11);
      SameQuotients(bits, q1, r1, q2, r2, j + 16);
      NoOtherBit(r1, j + 16);
      NoOtherBit(r2, j + 16);
      assert Coef(bits, j + 16 - 16) == (TimesGenerator(q1, j + 16) != Bit(r1, j + 16));
      assert Coef(bits, j + 16 - 16) == (TimesGenerator(q2, j + 16) != Bit(r2, j + 16));
    }
  }

  lemma NothingAbove(q: seq<bool>, j: int)
    requires j >= |q|
    ensures !Coef(q, j)
  {
  }

  lemma SameRemainders(bits: seq<bool>, q1: seq<bool>, r1: bv16, q2: seq<bool>, r2: bv16)
    requires BitsDivide(bits, q1, r1) && BitsDivide(bits, q2, r2)
    ensures r1 == r2
  {
    hide Bit;
    forall k | 0 <= k < 16 ensures Bit(r1, k) == Bit(r2, k) {
      assert Coef(bits, k - 16) == (TimesGenerator(q1, k) != Bit(r1, k)) == (TimesGenerator(q2, k) != Bit(r2, k));
      SameQuotients(bits, q1, r1, q2, r2, k);
      if k >= 5 { SameQuotients(bits, q1, r1, q2, r2, k - 5); }
      if k >= 12 { SameQuotients(bits, q1, r1, q2, r2, k - 12); }
    }
    SameWord(r1, r2);
  }

  // ---- messages ---------------------------------------------------------------------

  lemma {:induction false} SpellAt(q: bv16, k: nat, i: nat)
    requires i < k
    ensures Spell(q, k)[i] == Top(ShlN(q, i))
    decreases k
  {
    hide Top, Shl;
    if i == 0 {
    } else {
      SpellAt(Shl(q), k - 1, i - 1);
    }
  }

  lemma SpelledByte(p: octet, k: nat)
    requires k < 8
    ensures Spell(AtTop(p), 8)[7 - k] == Bit(p as bv16, k)
  {
    hide Shl, Top, AtTop, Spell, Bit;
    SpellAt(AtTop(p), 8, 7 - k);
    ShlSteps(AtTop(p));
    ByteTops(p);
  }

  lemma ShlSteps(q: bv16)
    ensures ShlN(q, 0) == q && ShlN(q, 1) == Shl(q) && ShlN(q, 2) == Shl(Shl(q)) && ShlN(q, 3) == Shl(Shl(Shl(q)))
    ensures var q4 := Shl(Shl(Shl(Shl(q))));
            ShlN(q, 4) == q4 && ShlN(q, 5) == Shl(q4) && ShlN(q, 6) == Shl(Shl(q4)) && ShlN(q, 7) == Shl(Shl(Shl(q4)))
  {
    hide Shl;
    FourMore(q);
    var q4 := Shl(Shl(Shl(Shl(q))));
    FourMore(q4);
    ShlAdd(q, 4, 1);
    ShlAdd(q, 4, 2);
    ShlAdd(q, 4, 3);
  }

  lemma FourMore(q: bv16)
    ensures ShlN(q, 0) == q && ShlN(q, 1) == Shl(q) && ShlN(q, 2) == Shl(Shl(q)) && ShlN(q, 3) == Shl(Shl(Shl(q)))
    ensures ShlN(q, 4) == Shl(Shl(Shl(Shl(q))))
  {
    hide Shl;
    assert ShlN(q, 4) == ShlN(Shl(q), 3) == ShlN(Shl(Shl(q)), 2) == ShlN(Shl(Shl(Shl(q))), 1);
    assert ShlN(q, 3) == ShlN(Shl(q), 2) == ShlN(Shl(Shl(q)), 1);
  }

  lemma ByteTops(p: octet)
    ensures var q := AtTop(p); var q1 := Shl(q); var q2 := Shl(q1); var q3 := Shl(q2); var q4 := Shl(q3);
            var q5 := Shl(q4); var q6 := Shl(q5); var q7 := Shl(q6); var c := p as bv16;
            && Top(q) == Bit(c, 7) && Top(q1) == Bit(c, 6) && Top(q2) == Bit(c, 5) && Top(q3) == Bit(c, 4)
            && Top(q4) == Bit(c, 3) && Top(q5) == Bit(c, 2) && Top(q6) == Bit(c, 1) && Top(q7) == Bit(c, 0)
  {
  }

  /** The bits of a message are its coefficients. */
  lemma {:induction false} MessageBits(s: seq<octet>, k: int)
    ensures Coef(Bits(s), k) == MessageCoef(s, k)
  {
    hide Bit, AtTop, Spell;
    if s == [] {
    } else {
      var n := 8 * (|s| - 1);
      var first := Spell(AtTop(s[0]), 8);
      assert Bits(s) == first + Bits(s[1..]);
      if n <= k < n + 8 {
        SpelledByte(s[0], k - n);
        assert Bits(s)[n + 7 - k] == first[7 - (k - n)];
        TopByte(k, |s|);
      } else if 0 <= k < n {
        MessageBits(s[1..], k);
        assert Bits(s)[n + 7 - k] == Bits(s[1..])[n - 1 - k];
        LowerByte(k, |s|);
        assert s[|s| - 1 - k / 8] == s[1..][|s| - 2 - k / 8];
      }
    }
  }

  lemma TopByte(k: int, n: nat)
    requires n > 0 && 8 * (n - 1) <= k < 8 * n
    ensures k / 8 == n - 1 && k % 8 == k - 8 * (n - 1)
  {
  }

  lemma LowerByte(k: int, n: nat)
    requires n > 0 && 0 <= k < 8 * (n - 1)
    ensures 0 <= k / 8 < n - 1
  {
  }

  lemma SameDivision(s: seq<octet>, q: seq<bool>, r: bv16)
    ensures Divides(s, q, r) <==> BitsDivide(Bits(s), q, r)
  {
    hide Bit, Coef, MessageCoef, Bits, TimesGenerator;
    forall k ensures Coef(Bits(s), k) == MessageCoef(s, k) { MessageBits(s, k); }
  }

  /** The CRC of a message is the remainder of its polynomial times x^16 modulo
      x^16 + x^12 + x^5 + 1: that division has a quotient with this remainder and with no
      other. */
  lemma CrcIsRemainder(s: seq<octet>, r: bv16)
    ensures (exists q :: Divides(s, q, r)) <==> r == Crc(s)
  {
    hide Divides, BitsDivide, Bits, FeedAll, Fold, Quotient;
    var bits := Bits(s);
    FoldIsBitwise(0, s);
    FedIsRemainder(bits);
    SameDivision(s, Quotient(bits), Crc(s));
    forall q | Divides(s, q, r) ensures r == Crc(s) {
      SameDivision(s, q, r);
      SameRemainders(bits, q, r, Quotient(bits), Crc(s));
    }
  }
}
