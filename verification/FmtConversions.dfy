/** What each conversion of svc/fmt.c prints, told by the characters of the format string: flags
    out of '-' and '0', a decimal width that does not start with '0', a length modifier, and the
    conversion character. Together with the two laws on pieces of a format string these fix the
    output of every format string. */
module FmtConversions {
  import opened Machine
  import opened Fmt

  // ---- the text of a conversion specification -----------------------------------------

  predicate FlagText(f: string) { forall i :: 0 <= i < |f| ==> f[i] == '-' || f[i] == '0' }

  predicate WidthText(d: string) { (forall i :: 0 <= i < |d| ==> '0' <= d[i] <= '9') && (d != "" ==> d[0] != '0') }

  predicate LengthText(l: string) { l == "" || l == "l" || l == "ll" || l == "z" }

  /** A character that goes on with none of flags, width and length modifier. */
  predicate Ends(d: string, l: string, c: char) {
    && (l == "" ==> c != 'l' && c != 'z' && !('0' <= c <= '9') && (d == "" ==> c != '-'))
    && (l == "l" ==> c != 'l')
  }

  predicate SpecParts(f: string, d: string, l: string) { FlagText(f) && WidthText(d) && LengthText(l) }

  function SpecText(f: string, d: string, l: string, c: char): string { "%" + f + d + l + [c] }

  /** The width asked for: no more than 4096. */
  function WidthOf(d: string): nat {
    match Parsed(d, 10)
    case Some(n) => Min(n, 4096)
    case None => 0
  }

  /** The number of values an argument of this length has. */
  function Modulus(l: string): nat { if l == "ll" then 0x1_0000_0000_0000_0000 else 0x1_0000_0000 }

  /** @p out is @p prefix and @p body in a field of @p width characters: with '-' blanks come
      after them, else with '0' zeros come between them, else blanks come before them. */
  predicate LaidOut(out: string, minus: bool, zero: bool, width: nat, prefix: string, body: string) {
    var n := |prefix| + |body|;
    && |out| == (if width > n then width else n)
    && if minus then
         out[..n] == prefix + body && forall i :: n <= i < |out| ==> out[i] == ' '
       else if zero then
         && out[..|prefix|] == prefix && out[|out| - |body|..] == body
         && forall i :: |prefix| <= i < |out| - |body| ==> out[i] == '0'
       else
         out[|out| - n..] == prefix + body && forall i :: 0 <= i < |out| - n ==> out[i] == ' '
  }

  lemma PaddedIsLaidOut(prefix: string, body: string, width: nat, zero: bool, left: bool)
    ensures LaidOut(Padded(prefix, body, width, zero, left), left, zero, width, prefix, body)
  {
  }

  // ---- the scan -----------------------------------------------------------------------------

  lemma {:induction false} FlagsScan(fmt: string, p: nat, f: string, left: bool, zero: bool)
    requires p + |f| <= |fmt| && fmt[p..p + |f|] == f && FlagText(f)
    requires p + |f| < |fmt| ==> fmt[p + |f|] != '-' && fmt[p + |f|] != '0'
    ensures Flags(fmt, p, left, zero) == (left || '-' in f, zero || '0' in f, p + |f|)
    decreases |f|
  {
    if f == "" {
    } else {
      var g := f[1..];
      assert fmt[p] == f[0] && fmt[p + 1..p + 1 + |g|] == g;
      assert f == [f[0]] + g;
      FlagsScan(fmt, p + 1, g, left || f[0] == '-', zero || f[0] == '0');
    }
  }

  /** The digits of a number in turn, from @p w on. */
  function Gather(w: nat, d: string): nat
    requires forall i :: 0 <= i < |d| ==> '0' <= d[i] <= '9'
    decreases |d|
  {
    if d == "" then w else Gather(w * 10 + (d[0] as int - '0' as int), d[1..])
  }

  lemma {:induction false} GatherGrows(w: nat, d: string)
    requires forall i :: 0 <= i < |d| ==> '0' <= d[i] <= '9'
    ensures Gather(w, d) >= w
    decreases |d|
  {
    if d == "" {
    } else {
      GatherGrows(w * 10 + (d[0] as int - '0' as int), d[1..]);
    }
  }

  lemma {:induction false} GatherPush(w: nat, d: string, c: char)
    requires (forall i :: 0 <= i < |d| ==> '0' <= d[i] <= '9') && '0' <= c <= '9'
    ensures Gather(w, d + [c]) == Gather(w, d) * 10 + (c as int - '0' as int)
    decreases |d|
  {
    if d == "" {
      assert "" + [c] == [c] && [c][1..] == "";
    } else {
      assert (d + [c])[1..] == d[1..] + [c];
      GatherPush(w * 10 + (d[0] as int - '0' as int), d[1..], c);
    }
  }

  lemma {:induction false} GatherParses(d: string)
    requires forall i :: 0 <= i < |d| ==> '0' <= d[i] <= '9'
    ensures Parsed(d, 10) == Some(Gather(0, d))
    decreases |d|
  {
    if d == "" {
    } else {
      var n := |d| - 1;
      GatherParses(d[..n]);
      GatherPush(0, d[..n], d[n]);
      assert d == d[..n] + [d[n]];
    }
  }

  /** The width loop saturates, which shows in no width below the cap. */
  lemma {:induction false} WidthScan(fmt: string, p: nat, d: string, w: nat)
    requires p + |d| <= |fmt| && fmt[p..p + |d|] == d && w <= 4096
    requires (forall i :: 0 <= i < |d| ==> '0' <= d[i] <= '9') && (p + |d| < |fmt| ==> !IsDigit(fmt[p + |d|]))
    ensures Width(fmt, p, w) == (Min(Gather(w, d), 4096), p + |d|)
    decreases |d|
  {
    if d == "" {
    } else {
      var g, next := d[1..], w * 10 + (d[0] as int - '0' as int);
      assert fmt[p] == d[0] && fmt[p + 1..p + 1 + |g|] == g;
      WidthScan(fmt, p + 1, g, WidthStep(w, d[0]));
      if next > 4096 {
        GatherGrows(next, g);
        GatherGrows(4096, g);
      }
    }
  }

  function LengthOf(l: string): LenMod {
    if l == "l" then LmLong else if l == "ll" then LmLongLong else if l == "z" then LmSize else LmInt
  }

  lemma LengthScan(fmt: string, p: nat, l: string)
    requires p + |l| <= |fmt| && fmt[p..p + |l|] == l && LengthText(l)
    requires p + |l| < |fmt| ==> (l == "" ==> fmt[p + |l|] != 'l' && fmt[p + |l|] != 'z') && (l == "l" ==> fmt[p + |l|] != 'l')
    ensures Length(fmt, p) == (LengthOf(l), p + |l|)
  {
    if |l| > 0 { assert fmt[p] == l[0]; }
    if |l| > 1 { assert fmt[p + 1] == l[1]; }
  }

  /** What the scan makes of a specification, whatever comes after it. */
  lemma ScansSpec(f: string, d: string, l: string, c: char, rest: string)
    requires SpecParts(f, d, l) && Ends(d, l, c)
    ensures var fmt := SpecText(f, d, l, c) + rest;
            && ParseSpec(fmt, 1) == Spec('-' in f, '0' in f, WidthOf(d), LengthOf(l), |SpecText(f, d, l, c)| - 1)
            && fmt[|SpecText(f, d, l, c)| - 1] == c
  {
    hide ParseSpec, WidthOf, LengthOf, SpecParts, Ends;
    Grouped("%" + f + d + l, [c], rest);
    ScansParts(f, d, l, [c] + rest);
    Parts(f, d, l, [c] + rest);
  }

  lemma Grouped(a: string, b: string, c: string)
    ensures a + b + c == a + (b + c)
  {
  }

  lemma Within(u: string, x: string, t: string)
    ensures (u + x + t)[|u|..|u| + |x|] == x && |u + x + t| == |u| + |x| + |t|
    ensures x != "" ==> (u + x + t)[|u|] == x[0]
    ensures t != "" ==> (u + x + t)[|u| + |x|] == t[0]
  {
  }

  /** Where the parts of a specification lie. */
  lemma Parts(f: string, d: string, l: string, tail: string)
    ensures var fmt, p1 := "%" + f + d + l + tail, 1 + |f|;
            var p2 := p1 + |d|;
            var p3 := p2 + |l|;
            && |fmt| == p3 + |tail| && fmt[0] == '%' && fmt[1..p1] == f && fmt[p1..p2] == d && fmt[p2..p3] == l
            && (d != "" ==> fmt[p1] == d[0]) && (l != "" ==> fmt[p2] == l[0]) && (tail != "" ==> fmt[p3] == tail[0])
  {
    var a := "%" + f;
    var b := a + d;
    Within(b, l, tail);
    Grouped(b, l, tail);
    Within(a, d, l + tail);
    Grouped(a, d, l + tail);
    Within("%", f, d + (l + tail));
  }

  /** The scan of flags, width and length modifier, with @p tail behind them. */
  lemma ScansParts(f: string, d: string, l: string, tail: string)
    requires SpecParts(f, d, l) && (tail != "" ==> Ends(d, l, tail[0]))
    ensures ParseSpec("%" + f + d + l + tail, 1) == Spec('-' in f, '0' in f, WidthOf(d), LengthOf(l), 1 + |f| + |d| + |l|)
  {
    hide Flags, Width, Length, Parsed, Gather;
    var fmt, p1 := "%" + f + d + l + tail, 1 + |f|;
    Parts(f, d, l, tail);
    FlagsScan(fmt, 1, f, false, false);
    GatherParses(d);
    WidthScan(fmt, p1, d, 0);
    LengthScan(fmt, p1 + |d|, l);
  }

  // ---- the pieces of a format string ----------------------------------------------------------

  lemma {:induction false} FlagsShift(u: string, t: string, p: nat, left: bool, zero: bool)
    requires p <= |t|
    ensures var s := Flags(t, p, left, zero); Flags(u + t, |u| + p, left, zero) == (s.0, s.1, |u| + s.2)
    decreases |t| - p
  {
    if p == |t| || (t[p] != '-' && t[p] != '0') {
    } else {
      FlagsShift(u, t, p + 1, left || t[p] == '-', zero || t[p] == '0');
    }
  }

  lemma {:induction false} WidthShift(u: string, t: string, p: nat, w: nat)
    requires p <= |t|
    ensures var s := Width(t, p, w); Width(u + t, |u| + p, w) == (s.0, |u| + s.1)
    decreases |t| - p
  {
    if p == |t| || !IsDigit(t[p]) {
    } else {
      WidthShift(u, t, p + 1, WidthStep(w, t[p]));
    }
  }

  lemma LengthShift(u: string, t: string, p: nat)
    requires p <= |t|
    ensures var s := Length(t, p); Length(u + t, |u| + p) == (s.0, |u| + s.1)
  {
  }

  lemma SpecShift(u: string, t: string, p: nat)
    requires p <= |t|
    ensures var s := ParseSpec(t, p); ParseSpec(u + t, |u| + p) == s.(at := |u| + s.at)
  {
    hide Flags, Width, Length;
    FlagsShift(u, t, p, false, false);
    var p1 := Flags(t, p, false, false).2;
    WidthShift(u, t, p1, 0);
    LengthShift(u, t, Width(t, p1, 0).1);
  }

  /** Where a conversion stands does not matter. */
  lemma ConvertAt(s: Spec, at: nat, c: char, args: seq<Arg>, a: nat)
    ensures Convert(s.(at := at), c, args, a) == Convert(s, c, args, a)
  {
  }

  /** What has been passed over does not matter. */
  lemma {:induction false} StreamShift(u: string, t: string, p: nat, args: seq<Arg>, a: nat)
    requires p <= |t|
    ensures Stream(u + t, |u| + p, args, a) == Stream(t, p, args, a)
    decreases |t| - p
  {
    hide ParseSpec, Convert, Stream;
    StreamStep(t, p, args, a);
    StreamStep(u + t, |u| + p, args, a);
    if p == |t| {
    } else if t[p] != '%' {
      StreamShift(u, t, p + 1, args, a);
    } else {
      SpecShift(u, t, p + 1);
      var s := ParseSpec(t, p + 1);
      if s.at < |t| {
        ConvertAt(s, |u| + s.at, t[s.at], args, a);
        StreamShift(u, t, s.at + 1, args, a + Convert(s, t[s.at], args, a).1);
      }
    }
  }

  lemma StreamStep(fmt: string, p: nat, args: seq<Arg>, a: nat)
    requires p <= |fmt|
    ensures p == |fmt| ==> Stream(fmt, p, args, a) == ""
    ensures p < |fmt| && fmt[p] != '%' ==> Stream(fmt, p, args, a) == [fmt[p]] + Stream(fmt, p + 1, args, a)
    ensures p < |fmt| && fmt[p] == '%' ==>
              var s := ParseSpec(fmt, p + 1);
              Stream(fmt, p, args, a) ==
                if s.at == |fmt| then "%"
                else var out := Convert(s, fmt[s.at], args, a); out.0 + Stream(fmt, s.at + 1, args, a + out.1)
  {
    hide ParseSpec, Convert;
  }

  /** An ordinary character stands for itself. */
  lemma LiteralPiece(c: char, rest: string, args: seq<Arg>, a: nat)
    requires c != '%'
    ensures Stream([c] + rest, 0, args, a) == [c] + Stream(rest, 0, args, a)
  {
    StreamShift([c], rest, 0, args, a);
  }

  /** The conversion characters that take an argument. */
  predicate Takes(c: char) { c in "csdiuxXp" }

  /** A specification prints what it prints alone, and the rest of the format string goes on with
      the next argument if it took one. */
  lemma SpecPiece(f: string, d: string, l: string, c: char, rest: string, args: seq<Arg>, a: nat)
    requires SpecParts(f, d, l) && Ends(d, l, c)
    ensures Stream(SpecText(f, d, l, c) + rest, 0, args, a) ==
            Stream(SpecText(f, d, l, c), 0, args, a) + Stream(rest, 0, args, a + if Takes(c) then 1 else 0)
  {
    hide ParseSpec, Convert, FlagText, WidthText;
    var t := SpecText(f, d, l, c);
    SpecAlone(f, d, l, c, args, a);
    ScansSpec(f, d, l, c, rest);
    TakesOne(ParseSpec(t + rest, 1), c, args, a);
    StreamShift(t, rest, 0, args, a + if Takes(c) then 1 else 0);
  }

  lemma TakesOne(s: Spec, c: char, args: seq<Arg>, a: nat)
    ensures Convert(s, c, args, a).1 == if Takes(c) then 1 else 0
  {
  }

  lemma SpecAlone(f: string, d: string, l: string, c: char, args: seq<Arg>, a: nat)
    requires SpecParts(f, d, l) && Ends(d, l, c)
    ensures var s := Spec('-' in f, '0' in f, WidthOf(d), LengthOf(l), |SpecText(f, d, l, c)| - 1);
            Stream(SpecText(f, d, l, c), 0, args, a) == Convert(s, c, args, a).0
  {
    hide ParseSpec, Convert, FlagText, WidthText;
    var t := SpecText(f, d, l, c);
    ScansSpec(f, d, l, c, "");
    assert t + "" == t;
    var out := Convert(ParseSpec(t, 1), c, args, a);
    assert Stream(t, 0, args, a) == out.0 + Stream(t, |t|, args, a + out.1);
  }

  // ---- what the conversions print ----------------------------------------------------------------

  /** @p v is the value of an argument's @p bits in two's complement. */
  predicate TwosComplement(v: int, bits: nat, l: string) {
    -(Modulus(l) / 2) <= v < Modulus(l) / 2 && (v - bits) % Modulus(l) == 0
  }

  lemma SignedIsTwos(l: string, bits: nat)
    requires LengthText(l)
    ensures TwosComplement(SignedOf(LengthOf(l), bits % TWO64), bits, l)
  {
    var m, n := Modulus(l), bits % TWO64;
    var v := SignedOf(LengthOf(l), n);
    var q := bits / TWO64;
    assert bits == q * TWO64 + n;
    if l == "ll" {
      assert v - bits == m * (if n < TWO64 / 2 then -q else -q - 1);
      Multiple(m, if n < TWO64 / 2 then -q else -q - 1);
    } else {
      var k := n / TWO32;
      assert n == k * TWO32 + n % TWO32;
      var j := if n % TWO32 < TWO31 then -k - q * TWO32 else -k - q * TWO32 - 1;
      assert v - bits == m * j;
      Multiple(m, j);
    }
  }

  lemma Multiple(m: nat, j: int)
    requires m == 0x1_0000_0000 || m == 0x1_0000_0000_0000_0000
    ensures (m * j) % m == 0
  {
    if m == 0x1_0000_0000 {
      assert (0x1_0000_0000 * j) % 0x1_0000_0000 == 0;
    } else {
      assert (0x1_0000_0000_0000_0000 * j) % 0x1_0000_0000_0000_0000 == 0;
    }
  }

  /** %d and %i, at any width and padding, in either justification: the field reads back in
      base 10 as the argument's value, 64 bits of it after `ll` and 32 otherwise; a minus goes
      before the zeros, and the digits have no zero in front but for 0 itself. */
  lemma PrintsSigned(f: string, d: string, l: string, c: char, args: seq<Arg>, a: nat)
    requires SpecParts(f, d, l) && (c == 'd' || c == 'i') && a < |args| && args[a].Num?
    ensures var out := Stream(SpecText(f, d, l, c), 0, args, a); var r := ReadSigned(out);
            && r.Some? && TwosComplement(r.value, args[a].bits, l)
            && exists body :: LaidOut(out, '-' in f, '0' in f, WidthOf(d), if r.value < 0 then "-" else "", body)
                              && body != "" && (body[0] == '0' <==> r.value == 0)
  {
    hide Stream, Parsed, ReadSigned, Padded, Rendered, FlagText, WidthText, LaidOut, WidthOf, SignedOf, TwosComplement;
    SpecAlone(f, d, l, c, args, a);
    SignedIsTwos(l, args[a].bits);
    var s := Spec('-' in f, '0' in f, WidthOf(d), LengthOf(l), |SpecText(f, d, l, c)| - 1);
    var n := NumAt(args, a);
    SignedReadsBack(s, n);
    var v := SignedOf(s.lm, n);
    RenderedParsesBack(Magnitude(v), 10, false);
    PaddedIsLaidOut(Sign(v), Rendered(Magnitude(v), 10, false), s.width, s.zero, s.left);
  }

  /** The letters of a hexadecimal field. */
  predicate NoLetters(s: string, from: char, to: char) { forall i :: 0 <= i < |s| ==> !(from <= s[i] <= to) }

  lemma RenderedLetters(mag: nat, base: nat, upper: bool)
    requires base == 10 || base == 16
    ensures var s := Rendered(mag, base, upper);
            NoLetters(s, if upper then 'a' else 'A', if upper then 'f' else 'F')
  {
  }

  lemma PaddedLetters(prefix: string, body: string, width: nat, zero: bool, left: bool, from: char, to: char)
    requires NoLetters(prefix, from, to) && NoLetters(body, from, to) && 'A' <= from
    ensures NoLetters(Padded(prefix, body, width, zero, left), from, to)
  {
  }

  /** The argument modulo 2^32, or modulo 2^64 after `ll`. */
  lemma UnsignedIsMod(l: string, bits: nat)
    requires LengthText(l)
    ensures UnsignedOf(LengthOf(l), bits % TWO64) == bits % Modulus(l)
  {
    var q, n := bits / TWO64, bits % TWO64;
    assert bits == q * TWO64 + n;
    if l != "ll" {
      ModTwice(q, n);
    }
  }

  lemma ModTwice(q: nat, n: nat)
    ensures (q * TWO64 + n) % TWO32 == n % TWO32
  {
    var k := n / TWO32;
    assert q * TWO64 + n == TWO32 * (q * TWO32 + k) + n % TWO32;
    Residue(q * TWO32 + k, n % TWO32);
  }

  lemma Residue(j: nat, r: nat)
    requires r < TWO32
    ensures (TWO32 * j + r) % TWO32 == r
  {
  }

  /** %u prints base 10, %x and %X base 16 with lower- and upper-case letters: each field reads
      back as the argument modulo 2^32, or modulo 2^64 after `ll`. */
  lemma PrintsUnsigned(f: string, d: string, l: string, c: char, args: seq<Arg>, a: nat)
    requires SpecParts(f, d, l) && (c == 'u' || c == 'x' || c == 'X') && a < |args| && args[a].Num?
    ensures var out, base := Stream(SpecText(f, d, l, c), 0, args, a), if c == 'u' then 10 else 16;
            && ReadUnsigned(out, base) == Some(args[a].bits % Modulus(l))
            && (c != 'X' ==> NoLetters(out, 'A', 'F')) && (c == 'X' ==> NoLetters(out, 'a', 'f'))
            && exists body :: LaidOut(out, '-' in f, '0' in f, WidthOf(d), "", body)
                              && body != "" && (body[0] == '0' <==> args[a].bits % Modulus(l) == 0)
  {
    hide Stream, Parsed, ReadUnsigned, Padded, Rendered, FlagText, WidthText, LaidOut, WidthOf, UnsignedOf, NoLetters;
    SpecAlone(f, d, l, c, args, a);
    UnsignedIsMod(l, args[a].bits);
    var n, base, upper := args[a].bits % Modulus(l), if c == 'u' then 10 else 16, c == 'X';
    UnsignedReadsBack(n, base, upper, WidthOf(d), '0' in f, '-' in f);
    RenderedParsesBack(n, base, upper);
    RenderedLetters(n, base, upper);
    NoneInNothing(if upper then 'a' else 'A', if upper then 'f' else 'F');
    PaddedLetters("", Rendered(n, base, upper), WidthOf(d), '0' in f, '-' in f, if upper then 'a' else 'A', if upper then 'f' else 'F');
    PaddedIsLaidOut("", Rendered(n, base, upper), WidthOf(d), '0' in f, '-' in f);
  }

  lemma NoneInNothing(from: char, to: char)
    ensures NoLetters("", from, to)
  {
  }

  /** %p prints "0x" and the argument modulo 2^32 in base 16 with lower-case letters. */
  lemma PrintsPointer(f: string, d: string, l: string, args: seq<Arg>, a: nat)
    requires SpecParts(f, d, l) && a < |args| && args[a].Num?
    ensures var out, n := Stream(SpecText(f, d, l, 'p'), 0, args, a), args[a].bits % 0x1_0000_0000;
            exists body :: LaidOut(out, '-' in f, '0' in f, WidthOf(d), "0x", body)
                           && Parsed(body, 16) == Some(n) && NoLetters(body, 'A', 'F') && body != "" && (body[0] == '0' <==> n == 0)
  {
    hide Stream, Parsed, Padded, Rendered, FlagText, WidthText, LaidOut, WidthOf, NoLetters;
    SpecAlone(f, d, l, 'p', args, a);
    UnsignedIsMod("", args[a].bits);
    var n := args[a].bits % Modulus("");
    RenderedParsesBack(n, 16, false);
    RenderedLetters(n, 16, false);
    PaddedIsLaidOut("0x", Rendered(n, 16, false), WidthOf(d), '0' in f, '-' in f);
  }

  /** %s prints the string, or "(null)" for a null pointer, and %c the character that is the
      argument's lowest byte; blanks alone pad them. */
  lemma PrintsText(f: string, d: string, l: string, c: char, args: seq<Arg>, a: nat)
    requires SpecParts(f, d, l) && a < |args| && (c == 's' ==> args[a].Text?) && (c == 'c' ==> args[a].Num?)
    requires c == 's' || c == 'c'
    ensures LaidOut(Stream(SpecText(f, d, l, c), 0, args, a), '-' in f, false, WidthOf(d), "",
                    if c == 'c' then [(args[a].bits % 256) as char]
                    else if args[a].s.Some? then args[a].s.value else "(null)")
  {
    hide Stream, Parsed, Padded, FlagText, WidthText, LaidOut, WidthOf;
    SpecAlone(f, d, l, c, args, a);
    if c == 'c' { LowByte(args[a].bits); }
    var body := if c == 'c' then [(args[a].bits % 256) as char] else TextAt(args, a);
    PaddedIsLaidOut("", body, WidthOf(d), false, '-' in f);
  }

  lemma LowByte(bits: nat)
    ensures bits % TWO64 % 256 == bits % 256
  {
    var q, n := bits / TWO64, bits % TWO64;
    assert bits == 256 * (q * (TWO64 / 256) + n / 256) + n % 256;
    ByteResidue(q * (TWO64 / 256) + n / 256, n % 256);
  }

  lemma ByteResidue(j: nat, r: nat)
    requires r < 256
    ensures (256 * j + r) % 256 == r
  {
  }

  /** %% prints a percent sign, whatever flags and width stand between; a character that is no
      conversion is printed as it stands, behind a percent sign; a format string that ends in a
      specification prints the percent sign alone. */
  lemma PrintsOther(f: string, d: string, l: string, c: char, args: seq<Arg>, a: nat)
    requires SpecParts(f, d, l) && Ends(d, l, c) && !Takes(c)
    ensures Stream(SpecText(f, d, l, c), 0, args, a) == if c == '%' then "%" else "%" + [c]
  {
    hide Stream, FlagText, WidthText;
    SpecAlone(f, d, l, c, args, a);
  }

  lemma PrintsCutShort(f: string, d: string, l: string, args: seq<Arg>, a: nat)
    requires SpecParts(f, d, l)
    ensures Stream("%" + f + d + l, 0, args, a) == "%"
  {
    hide ParseSpec, WidthOf, SpecParts;
    var fmt := "%" + f + d + l;
    assert fmt + "" == fmt;
    ScansParts(f, d, l, "");
    Parts(f, d, l, "");
  }

  // ---- every format string is made of these pieces ------------------------------------------------

  function FlagRun(s: string): (n: nat)
    ensures n <= |s| && FlagText(s[..n]) && (n < |s| ==> s[n] != '-' && s[n] != '0')
  {
    if s == "" || (s[0] != '-' && s[0] != '0') then 0 else 1 + FlagRun(s[1..])
  }

  function DigitRun(s: string): (n: nat)
    ensures n <= |s| && (forall i :: 0 <= i < n ==> '0' <= s[i] <= '9') && (n < |s| ==> !('0' <= s[n] <= '9'))
  {
    if s == "" || !('0' <= s[0] <= '9') then 0 else 1 + DigitRun(s[1..])
  }

  function LengthRun(s: string): (n: nat)
    ensures n <= |s| && LengthText(s[..n])
  {
    if s == "" then 0 else if s[0] == 'z' then 1 else if s[0] == 'l' then (if |s| > 1 && s[1] == 'l' then 2 else 1) else 0
  }

  /** A format string is empty, or starts with an ordinary character or with a specification, or
      is a specification cut short. */
  lemma EveryFormat(fmt: string)
    ensures fmt == "" || fmt[0] != '%'
            || (exists f, d, l, c, rest :: SpecParts(f, d, l) && Ends(d, l, c) && fmt == SpecText(f, d, l, c) + rest)
            || exists f, d, l :: SpecParts(f, d, l) && fmt == "%" + f + d + l
  {
    hide SpecParts, Ends;
    if fmt != "" && fmt[0] == '%' {
      var f, d, l, more := SplitSpec(fmt[1..]);
      if more == "" {
        assert fmt == "%" + f + d + l;
      } else {
        assert fmt == SpecText(f, d, l, more[0]) + more[1..];
      }
    }
  }

  lemma SplitSpec(s: string) returns (f: string, d: string, l: string, more: string)
    ensures SpecParts(f, d, l) && s == f + d + l + more && (more != "" ==> Ends(d, l, more[0]))
  {
    hide FlagRun, DigitRun, LengthRun, FlagText, LengthText, Ends, WidthText;
    var s1, s2: string;
    f, s1 := s[..FlagRun(s)], s[FlagRun(s)..];
    d, s2 := s1[..DigitRun(s1)], s1[DigitRun(s1)..];
    l, more := s2[..LengthRun(s2)], s2[LengthRun(s2)..];
    WidthStops(s1);
    if more != "" { SpecEnds(s1, s2); }
    Rejoined(s, FlagRun(s));
    Rejoined(s1, DigitRun(s1));
    Rejoined(s2, LengthRun(s2));
    Regrouped(f, d, l, more);
  }

  lemma Rejoined(s: string, n: nat)
    requires n <= |s|
    ensures s == s[..n] + s[n..]
  {
  }

  lemma Regrouped(a: string, b: string, c: string, d: string)
    ensures a + b + c + d == a + (b + (c + d))
  {
  }

  lemma WidthStops(s: string)
    requires s != "" ==> s[0] != '0'
    ensures WidthText(s[..DigitRun(s)])
  {
    hide DigitRun;
  }

  lemma SpecEnds(s1: string, s2: string)
    requires (s1 != "" ==> s1[0] != '-') && s2 == s1[DigitRun(s1)..] && LengthRun(s2) < |s2|
    ensures Ends(s1[..DigitRun(s1)], s2[..LengthRun(s2)], s2[LengthRun(s2)])
  {
    hide DigitRun, LengthRun;
    LengthStops(s2);
  }

  lemma LengthStops(s: string)
    ensures var n := LengthRun(s); n < |s| ==> (n == 0 ==> s[n] != 'l' && s[n] != 'z') && (s[..n] == "l" ==> s[n] != 'l')
  {
  }
}
