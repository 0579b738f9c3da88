/** CRC-16 of the YMODEM sender (svc/ymodem.c:51-61): polynomial 0x1021, initial value 0,
    no reflection. The byte-wise fold is compared with feeding the register one bit at a
    time, where linearity and injectivity give the error-detection guarantees. */
module Crc16 {

  type octet = bv8

  function Xor(a: bv16, b: bv16): bv16 { a ^ b }

  function Shl(a: bv16): bv16 { a << 1 }

  /** One shift of the register. */
  function T(c: bv16): bv16 { if c & 0x8000 != 0 then Xor(c << 1, 0x1021) else c << 1 }

  function TN(c: bv16, n: nat): bv16
    decreases n
  {
    if n == 0 then c else TN(T(c), n - 1)
  }

  function AtTop(p: octet): bv16 { (p as bv16) << 8 }

  function Step(c: bv16, p: octet): bv16 { TN(Xor(c, AtTop(p)), 8) }

  /** The register after @p s, starting from @p c. */
  function Fold(c: bv16, s: seq<octet>): bv16
    decreases |s|
  {
    if s == [] then c else Fold(Step(c, s[0]), s[1..])
  }

  function Crc(s: seq<octet>): bv16 { Fold(0, s) }

  function High(c: bv16): octet { (c >> 8) as octet }

  function Low(c: bv16): octet { (c & 0xFF) as octet }

  function Trailer(c: bv16): (t: seq<octet>) { [High(c), Low(c)] }

  // ---- laws of the register ----------------------------------------------------

  lemma XorComm(a: bv16, b: bv16)
    ensures Xor(a, b) == Xor(b, a)
  {
  }

  lemma XorAssoc(a: bv16, b: bv16, c: bv16)
    ensures Xor(Xor(a, b), c) == Xor(a, Xor(b, c))
  {
  }

  lemma XorUnit(a: bv16)
    ensures Xor(a, 0) == a == Xor(0, a) && Xor(a, a) == 0
  {
  }

  lemma XorSwap(a: bv16, b: bv16, c: bv16, d: bv16)
    ensures Xor(Xor(a, b), Xor(c, d)) == Xor(Xor(a, c), Xor(b, d))
  {
    hide Xor;
    XorAssoc(a, b, Xor(c, d));
    XorAssoc(b, c, d);
    XorComm(b, c);
    XorAssoc(c, b, d);
    XorAssoc(a, c, Xor(b, d));
  }

  lemma XorZero(a: bv16, b: bv16)
    ensures Xor(a, b) == 0 <==> a == b
  {
    hide Xor;
    XorAssoc(a, b, b);
    XorUnit(a);
    XorUnit(b);
  }

  lemma TopBit(a: bv16, b: bv16)
    ensures Xor(a, b) & 0x8000 == (a & 0x8000) ^ (b & 0x8000)
    ensures a & 0x8000 == 0 || a & 0x8000 == 0x8000
    ensures Xor(a, b) << 1 == Xor(a << 1, b << 1)
  {
  }

  lemma TLinear(a: bv16, b: bv16)
    ensures T(Xor(a, b)) == Xor(T(a), T(b))
  {
    hide Xor;
    TopBit(a, b);
    TopBit(b, a);
    var x, y := a << 1, b << 1;
    assert Xor(0x1021, 0x1021) == 0 by { XorUnit(0x1021); }
    XorSwap(x, 0x1021, y, 0x1021);
    XorSwap(x, 0x1021, y, 0);
    XorSwap(x, 0, y, 0x1021);
    XorUnit(x);
    XorUnit(y);
    XorUnit(Xor(x, y));
    XorUnit(0x1021);
  }

  /** A shift loses nothing: the generator's low bit is set. */
  lemma TInjective(a: bv16)
    ensures T(a) == 0 <==> a == 0
  {
  }

  lemma {:induction false} TNLinear(a: bv16, b: bv16, n: nat)
    ensures TN(Xor(a, b), n) == Xor(TN(a, n), TN(b, n))
    decreases n
  {
    hide T, Xor;
    if n == 0 {
    } else {
      TLinear(a, b);
      TNLinear(T(a), T(b), n - 1);
    }
  }

  lemma {:induction false} TNInjective(a: bv16, n: nat)
    ensures TN(a, n) == 0 <==> a == 0
    decreases n
  {
    hide T;
    if n == 0 {
    } else {
      TInjective(a);
      TNInjective(T(a), n - 1);
    }
  }

  lemma {:induction false} TNAdd(a: bv16, m: nat, n: nat)
    ensures TN(TN(a, m), n) == TN(a, m + n)
    decreases m
  {
    hide T;
    if m == 0 {
    } else {
      TNAdd(T(a), m - 1, n);
    }
  }

  // ---- messages ------------------------------------------------------------------

  function XorBytes(s: seq<octet>, e: seq<octet>): (r: seq<octet>)
    requires |s| == |e|
    ensures |r| == |s|
  {
    seq(|s|, i requires 0 <= i < |s| => s[i] ^ e[i])
  }

  lemma AtTopXor(p: octet, q: octet)
    ensures AtTop(p ^ q) == Xor(AtTop(p), AtTop(q))
  {
  }

  /** The CRC is linear: errors travel through it independently of the message. */
  lemma {:induction false} FoldLinear(a: bv16, b: bv16, s: seq<octet>, e: seq<octet>)
    requires |s| == |e|
    ensures Fold(Xor(a, b), XorBytes(s, e)) == Xor(Fold(a, s), Fold(b, e))
    decreases |s|
  {
    hide T, TN, Xor, AtTop;
    if s == [] {
    } else {
      AtTopXor(s[0], e[0]);
      XorSwap(a, b, AtTop(s[0]), AtTop(e[0]));
      TNLinear(Xor(a, AtTop(s[0])), Xor(b, AtTop(e[0])), 8);
      assert XorBytes(s, e)[1..] == XorBytes(s[1..], e[1..]);
      FoldLinear(Step(a, s[0]), Step(b, e[0]), s[1..], e[1..]);
    }
  }

  lemma CrcLinear(s: seq<octet>, e: seq<octet>)
    requires |s| == |e|
    ensures Crc(XorBytes(s, e)) == Xor(Crc(s), Crc(e))
  {
    FoldLinear(0, 0, s, e);
  }

  lemma {:induction false} FoldConcat(c: bv16, s: seq<octet>, t: seq<octet>)
    ensures Fold(c, s + t) == Fold(Fold(c, s), t)
    decreases |s|
  {
    hide Step;
    if s == [] {
      assert s + t == t;
    } else {
      assert (s + t)[1..] == s[1..] + t;
      FoldConcat(Step(c, s[0]), s[1..], t);
    }
  }

  lemma LowByte(l: octet)
    ensures TN(l as bv16, 8) == AtTop(l)
  {
    var x := l as bv16;
    assert T(x) == x << 1 && T(x << 1) == x << 2 && T(x << 2) == x << 3 && T(x << 3) == x << 4;
    assert T(x << 4) == x << 5 && T(x << 5) == x << 6 && T(x << 6) == x << 7 && T(x << 7) == x << 8;
    EightSteps(x);
  }

  lemma EightSteps(x: bv16)
    ensures TN(x, 8) == T(T(T(T(T(T(T(T(x))))))))
  {
    hide T;
    assert TN(x, 8) == TN(T(x), 7) == TN(T(T(x)), 6) == TN(T(T(T(x))), 5) == TN(T(T(T(T(x)))), 4);
    var y := T(T(T(T(x))));
    assert TN(y, 4) == TN(T(y), 3) == TN(T(T(y)), 2) == TN(T(T(T(y))), 1) == TN(T(T(T(T(y)))), 0);
  }

  function Join(h: octet, l: octet): bv16 { ((h as bv16) << 8) ^ (l as bv16) }

  lemma JoinHigh(h: octet, l: octet)
    ensures High(Join(h, l)) == h
  {
  }

  lemma JoinLow(h: octet, l: octet)
    ensures Low(Join(h, l)) == l
  {
  }

  lemma JoinHalves(c: bv16)
    ensures Join(High(c), Low(c)) == c
  {
  }

  lemma Halves(c: bv16, h: octet, l: octet)
    ensures c == Xor(AtTop(h), l as bv16) <==> h == High(c) && l == Low(c)
  {
    hide High, Low, Join;
    JoinHigh(h, l);
    JoinLow(h, l);
    JoinHalves(c);
    IsJoin(h, l);
  }

  lemma IsJoin(h: octet, l: octet)
    ensures Join(h, l) == Xor(AtTop(h), l as bv16)
  {
  }

  /** Two more bytes leave the register zero exactly if they are the CRC. */
  lemma TwoMore(c: bv16, h: octet, l: octet)
    ensures Fold(c, [h, l]) == 0 <==> [h, l] == Trailer(c)
  {
    hide T, TN, Xor, AtTop, High, Low;
    var low := l as bv16;
    var a := Xor(c, AtTop(h));
    assert Fold(c, [h, l]) == Fold(Step(c, h), [l]) == Step(Step(c, h), l);
    assert Step(Step(c, h), l) == TN(Xor(TN(a, 8), TN(low, 8)), 8) by { LowByte(l); }
    TNLinear(a, low, 8);
    TNInjective(TN(Xor(a, low), 8), 8);
    TNInjective(Xor(a, low), 8);
    XorAssoc(c, AtTop(h), low);
    XorZero(c, Xor(AtTop(h), low));
    Halves(c, h, l);
  }

  /** A receiver that runs the CRC over data and trailer sees zero exactly if the trailer
      is the CRC of the data. */
  lemma Sealed(s: seq<octet>, t: seq<octet>)
    requires |t| == 2
    ensures Crc(s + t) == 0 <==> t == Trailer(Crc(s))
  {
    FoldConcat(0, s, t);
    TwoMore(Crc(s), t[0], t[1]);
    assert t == [t[0], t[1]];
  }

  // ---- one bit at a time -----------------------------------------------------------

  predicate Top(c: bv16) { c & 0x8000 != 0 }

  function Feed(c: bv16, b: bool): bv16 { T(if b then Xor(c, 0x8000) else c) }

  function FeedAll(c: bv16, bits: seq<bool>): bv16
    decreases |bits|
  {
    if bits == [] then c else FeedAll(Feed(c, bits[0]), bits[1..])
  }

  function ShlN(q: bv16, k: nat): bv16
    decreases k
  {
    if k == 0 then q else ShlN(Shl(q), k - 1)
  }

  /** The top @p k bits of a word, most significant first. */
  function Spell(q: bv16, k: nat): (b: seq<bool>)
    ensures |b| == k
    decreases k
  {
    if k == 0 then [] else [Top(q)] + Spell(Shl(q), k - 1)
  }

  /** The bits of a message in the order they are sent. */
  function Bits(s: seq<octet>): (b: seq<bool>)
    ensures |b| == 8 * |s|
  {
    if s == [] then [] else Spell(AtTop(s[0]), 8) + Bits(s[1..])
  }

  function Falses(n: nat): (b: seq<bool>)
    ensures |b| == n
  {
    seq(n, _ => false)
  }

  /** @p n bits that are zero but for the sixteen bits of @p p from bit @p i on: every
      error burst of at most sixteen bits in a message of two bytes or more. */
  function Burst(n: nat, i: nat, p: bv16): (b: seq<bool>)
    requires i + 16 <= n
    ensures |b| == n
  {
    Falses(i) + Spell(p, 16) + Falses(n - i - 16)
  }

  lemma FeedTop(c: bv16, q: bv16)
    ensures Xor(Feed(c, Top(q)), Shl(q)) == T(Xor(c, q))
  {
    hide Xor, T;
    var r := q & 0x7FFF;
    LowerBits(q);
    if Top(q) {
      assert Xor(c, q) == Xor(Xor(c, 0x8000), r) by { XorAssoc(c, 0x8000, r); }
      TLinear(Xor(c, 0x8000), r);
    } else {
      TLinear(c, r);
    }
  }

  lemma LowerBits(q: bv16)
    ensures q == if Top(q) then Xor(0x8000, q & 0x7FFF) else q & 0x7FFF
    ensures T(q & 0x7FFF) == Shl(q)
  {
    hide Xor;
    SplitTop(q);
    TopBit(q, 0);
    XorUnit(q & 0x7FFF);
  }

  lemma SplitTop(q: bv16)
    ensures q == Xor(q & 0x8000, q & 0x7FFF)
    ensures (q & 0x7FFF) & 0x8000 == 0
    ensures (q & 0x7FFF) << 1 == q << 1
  {
  }

  lemma {:induction false} FeedSpell(c: bv16, q: bv16, k: nat)
    ensures Xor(FeedAll(c, Spell(q, k)), ShlN(q, k)) == TN(Xor(c, q), k)
    decreases k
  {
    hide Xor, T, Feed, Top, Shl;
    if k == 0 {
    } else {
      FeedTop(c, q);
      FeedSpell(Feed(c, Top(q)), Shl(q), k - 1);
    }
  }

  lemma {:induction false} ShlAdd(q: bv16, m: nat, n: nat)
    ensures ShlN(ShlN(q, m), n) == ShlN(q, m + n)
    decreases m
  {
    hide Shl;
    if m == 0 {
    } else {
      ShlAdd(Shl(q), m - 1, n);
    }
  }

  lemma ShlFour(q: bv16)
    ensures ShlN(q, 4) == q << 4
  {
    assert ShlN(q, 4) == ShlN(Shl(q), 3) == ShlN(Shl(Shl(q)), 2);
  }

  lemma ShlOut(q: bv16, p: octet)
    ensures ShlN(q, 16) == 0 && ShlN(AtTop(p), 8) == 0
  {
    ShlFour(q); ShlFour(q << 4); ShlFour(q << 8); ShlFour(q << 12);
    ShlAdd(q, 4, 4); ShlAdd(q, 8, 4); ShlAdd(q, 12, 4);
    var a := AtTop(p);
    ShlFour(a); ShlFour(a << 4); ShlAdd(a, 4, 4);
  }

  lemma {:induction false} FeedConcat(c: bv16, x: seq<bool>, y: seq<bool>)
    ensures FeedAll(c, x + y) == FeedAll(FeedAll(c, x), y)
    decreases |x|
  {
    hide Feed;
    if x == [] {
      assert x + y == y;
    } else {
      assert (x + y)[1..] == x[1..] + y;
      FeedConcat(Feed(c, x[0]), x[1..], y);
    }
  }

  /** The byte-wise loop computes the bit-serial register. */
  lemma {:induction false} FoldIsBitwise(c: bv16, s: seq<octet>)
    ensures Fold(c, s) == FeedAll(c, Bits(s))
    decreases |s|
  {
    hide Xor, TN, ShlN, Spell, AtTop;
    if s == [] {
    } else {
      var q := AtTop(s[0]);
      FeedSpell(c, q, 8);
      ShlOut(0, s[0]);
      XorUnit(FeedAll(c, Spell(q, 8)));
      FeedConcat(c, Spell(q, 8), Bits(s[1..]));
      FoldIsBitwise(Step(c, s[0]), s[1..]);
    }
  }

  lemma {:induction false} FeedFalses(c: bv16, n: nat)
    ensures FeedAll(c, Falses(n)) == TN(c, n)
    decreases n
  {
    hide T;
    if n == 0 {
    } else {
      assert Falses(n)[1..] == Falses(n - 1);
      FeedFalses(T(c), n - 1);
    }
  }

  lemma BurstMoves(n: nat, i: nat, p: bv16)
    requires i + 16 <= n && p != 0
    ensures FeedAll(0, Burst(n, i, p)) != 0
  {
    hide Xor, T, TN, ShlN, Spell, Feed, FeedAll;
    FeedConcat(0, Falses(i) + Spell(p, 16), Falses(n - i - 16));
    FeedConcat(0, Falses(i), Spell(p, 16));
    FeedFalses(0, i);
    TNInjective(0, i);
    FeedSpell(0, p, 16);
    ShlOut(p, 0);
    var c := FeedAll(0, Spell(p, 16));
    XorUnit(c);
    XorUnit(p);
    TNInjective(p, 16);
    FeedFalses(c, n - i - 16);
    TNInjective(c, n - i - 16);
  }

  /** An error burst of at most sixteen bits anywhere in a frame with a correct CRC,
      trailer included, is detected. */
  lemma BurstDetected(frame: seq<octet>, e: seq<octet>, i: nat, p: bv16)
    requires |frame| == |e| && Crc(frame) == 0
    requires i + 16 <= 8 * |e| && p != 0 && Bits(e) == Burst(8 * |e|, i, p)
    ensures Crc(XorBytes(frame, e)) != 0
  {
    hide Xor, Fold, FeedAll, Bits, Burst;
    CrcLinear(frame, e);
    FoldIsBitwise(0, e);
    BurstMoves(8 * |e|, i, p);
    XorUnit(Crc(e));
  }
}
