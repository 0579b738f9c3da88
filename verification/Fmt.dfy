/** The printf-style formatter of svc/fmt.c: the character stream of a format string and an
    argument list, the renderer of numbers and fields, and the bounded-buffer sink. Integer
    widths are those of the target: int, long and size_t have 32 bits, long long 64. */
module Fmt {
  import opened Machine
  import Numerals

  const TWO64: int := 0x1_0000_0000_0000_0000

  // ---- numbers -----------------------------------------------------------------------

  function DigitChar(d: nat, upper: bool): char
    requires d < 16
  {
    (if upper then "0123456789ABCDEF" else "0123456789abcdef")[d]
  }

  function DigitValue(c: char): Option<nat> {
    if '0' <= c <= '9' then Some(c as int - '0' as int)
    else if 'a' <= c <= 'f' then Some(c as int - 'a' as int + 10)
    else if 'A' <= c <= 'F' then Some(c as int - 'A' as int + 10)
    else None
  }

  /** A magnitude in base 10 or 16. */
  function Rendered(mag: nat, base: nat, upper: bool): (s: string)
    requires base in {10, 16}
    ensures |s| == |Numerals.Digits(mag, base)| >= 1
  {
    var d := Numerals.Digits(mag, base);
    seq(|d|, i requires 0 <= i < |d| => DigitChar(d[i], upper))
  }

  /** The number that a digit string denotes; the caller's view of an output. */
  function Parsed(s: string, base: nat): Option<nat>
    decreases |s|
  {
    if s == "" then Some(0)
    else
      match (Parsed(s[..|s| - 1], base), DigitValue(s[|s| - 1]))
      case (Some(v), Some(d)) => if d < base then Some(v * base + d) else None
      case _ => None
  }

  lemma DigitBack(d: nat, upper: bool)
    requires d < 16
    ensures DigitValue(DigitChar(d, upper)) == Some(d)
  {
  }

  lemma {:induction false} ParsesDigits(d: seq<nat>, s: string, base: nat, upper: bool)
    requires base in {10, 16} && |s| == |d|
    requires forall i :: 0 <= i < |d| ==> d[i] < base && s[i] == DigitChar(d[i], upper)
    ensures Parsed(s, base) == Some(Numerals.Value(d, base))
    decreases |d|
  {
    hide DigitValue, DigitChar;
    if d == [] {
    } else {
      var n := |d| - 1;
      ParsesDigits(d[..n], s[..n], base, upper);
      DigitBack(d[n], upper);
    }
  }

  /** Every 64-bit magnitude reads back, within the twenty characters of the callers'
      buffers, and without a leading zero unless it is zero. */
  lemma RenderedParsesBack(mag: nat, base: nat, upper: bool)
    requires base in {10, 16}
    ensures Parsed(Rendered(mag, base, upper), base) == Some(mag)
    ensures mag < TWO64 ==> |Rendered(mag, base, upper)| <= (if base == 10 then 20 else 16)
    ensures Rendered(mag, base, upper)[0] == '0' <==> mag == 0
  {
    hide Parsed, DigitChar;
    Numerals.NoLeadingZero(mag, base);
    ZeroDigit(Numerals.Digits(mag, base)[0], upper);
    ParsesDigits(Numerals.Digits(mag, base), Rendered(mag, base, upper), base, upper);
    Numerals.ParsesBack(mag, base);
    if mag < TWO64 {
      Powers();
      Numerals.FewDigits(mag, base, if base == 10 then 20 else 16);
    }
  }

  lemma ZeroDigit(d: nat, upper: bool)
    requires d < 16
    ensures DigitChar(d, upper) == '0' <==> d == 0
  {
  }

  lemma Powers()
    ensures Numerals.Pow(10, 20) == 100_000_000_000_000_000_000 && Numerals.Pow(16, 16) == TWO64
  {
    assert Numerals.Pow(10, 5) == 100_000 && Numerals.Pow(16, 4) == 0x1_0000;
    assert Numerals.Pow(10, 10) == 10 * 10 * 10 * 10 * 10 * Numerals.Pow(10, 5);
    assert Numerals.Pow(10, 15) == 10 * 10 * 10 * 10 * 10 * Numerals.Pow(10, 10);
    assert Numerals.Pow(10, 20) == 10 * 10 * 10 * 10 * 10 * Numerals.Pow(10, 15);
    assert Numerals.Pow(16, 8) == 16 * 16 * 16 * 16 * Numerals.Pow(16, 4);
    assert Numerals.Pow(16, 12) == 16 * 16 * 16 * 16 * Numerals.Pow(16, 8);
    assert Numerals.Pow(16, 16) == 16 * 16 * 16 * 16 * Numerals.Pow(16, 12);
  }

  // ---- fields -----------------------------------------------------------------------------

  function Repeat(c: char, n: nat): (s: string)
    ensures |s| == n && forall i :: 0 <= i < n ==> s[i] == c
  {
    seq(n, _ => c)
  }

  function Padding(natural: nat, width: int): nat { if width > natural then width - natural else 0 }

  /** A field: zeros go between prefix and body, spaces before or after both. */
  function Padded(prefix: string, body: string, width: int, zero: bool, left: bool): (s: string)
    ensures |s| == if width > |prefix| + |body| then width else |prefix| + |body|
  {
    var pad := Padding(|prefix| + |body|, width);
    if left then prefix + body + Repeat(' ', pad)
    else if zero then prefix + Repeat('0', pad) + body
    else Repeat(' ', pad) + prefix + body
  }

  /** A zero-padded number still reads back: leading zeros do not change it. */
  lemma {:induction false} LeadingZeros(n: nat, s: string, base: nat)
    requires base in {10, 16} && Parsed(s, base).Some?
    ensures Parsed(Repeat('0', n) + s, base) == Parsed(s, base)
    decreases |s| + n
  {
    var t := Repeat('0', n) + s;
    if s != "" {
      assert t[..|t| - 1] == Repeat('0', n) + s[..|s| - 1];
      LeadingZeros(n, s[..|s| - 1], base);
    } else if n > 0 {
      assert t[..|t| - 1] == Repeat('0', n - 1) + s;
      LeadingZeros(n - 1, s, base);
    } else {
      assert t == s;
    }
  }

  // ---- the stream of a format string ------------------------------------------------------

  /** An argument as the caller pushed it: a number's bits, or a string (or NULL). */
  datatype Arg = Num(bits: nat) | Text(s: Option<string>)

  datatype LenMod = LmInt | LmLong | LmLongLong | LmSize

  /** A conversion specification; @p at is the index of the conversion character. */
  datatype Spec = Spec(left: bool, zero: bool, width: nat, lm: LenMod, at: nat)

  function NumAt(args: seq<Arg>, a: nat): (n: nat)
    ensures n < TWO64
  {
    if a < |args| && args[a].Num? then args[a].bits % TWO64 else 0
  }

  function TextAt(args: seq<Arg>, a: nat): string {
    if a < |args| && args[a].Text? && args[a].s.Some? then args[a].s.value else "(null)"
  }

  function UnsignedOf(lm: LenMod, bits: nat): (n: nat)
    ensures n <= bits
  {
    if lm == LmLongLong then bits else bits % TWO32
  }

  function SignedOf(lm: LenMod, bits: nat): int
    requires bits < TWO64
  {
    var u := UnsignedOf(lm, bits);
    var half := if lm == LmLongLong then TWO64 / 2 else TWO31;
    if u < half then u else u - 2 * half
  }

  predicate IsDigit(c: char) { '0' <= c <= '9' }

  function Flags(fmt: string, p: nat, left: bool, zero: bool): (f: (bool, bool, nat))
    requires p <= |fmt|
    ensures p <= f.2 <= |fmt|
    decreases |fmt| - p
  {
    if p < |fmt| && fmt[p] == '-' then Flags(fmt, p + 1, true, zero)
    else if p < |fmt| && fmt[p] == '0' then Flags(fmt, p + 1, left, true)
    else (left, zero, p)
  }

  function WidthStep(w: nat, c: char): nat
    requires IsDigit(c)
  {
    var next := w * 10 + (c as int - '0' as int);
    if next > 4096 then 4096 else next
  }

  function Width(fmt: string, p: nat, w: nat): (r: (nat, nat))
    requires p <= |fmt|
    ensures p <= r.1 <= |fmt|
    decreases |fmt| - p
  {
    if p < |fmt| && IsDigit(fmt[p]) then Width(fmt, p + 1, WidthStep(w, fmt[p])) else (w, p)
  }

  function Length(fmt: string, p: nat): (r: (LenMod, nat))
    requires p <= |fmt|
    ensures p <= r.1 <= |fmt|
  {
    if p < |fmt| && fmt[p] == 'l' then
      (if p + 1 < |fmt| && fmt[p + 1] == 'l' then (LmLongLong, p + 2) else (LmLong, p + 1))
    else if p < |fmt| && fmt[p] == 'z' then (LmSize, p + 1)
    else (LmInt, p)
  }

  function ParseSpec(fmt: string, p: nat): (s: Spec)
    requires p <= |fmt|
    ensures p <= s.at <= |fmt|
  {
    var (left, zero, p1) := Flags(fmt, p, false, false);
    var (width, p2) := Width(fmt, p1, 0);
    var (lm, p3) := Length(fmt, p2);
    Spec(left, zero, width, lm, p3)
  }

  /** The sign a signed field shows. */
  function Sign(v: int): string { if v < 0 then "-" else "" }

  /** The magnitude of a signed number. */
  function Magnitude(v: int): nat { if v < 0 then -v else v }

  /** One conversion: its output and the arguments it takes. */
  function Convert(s: Spec, c: char, args: seq<Arg>, a: nat): (string, nat) {
    var n := NumAt(args, a);
    match c
    case '%' => ("%", 0)
    case 'c' => (Padded("", [(n % 256) as char], s.width, false, s.left), 1)
    case 's' => (Padded("", TextAt(args, a), s.width, false, s.left), 1)
    case 'd' => (SignedField(s, n), 1)
    case 'i' => (SignedField(s, n), 1)
    case 'u' => (Padded("", Rendered(UnsignedOf(s.lm, n), 10, false), s.width, s.zero, s.left), 1)
    case 'x' => (Padded("", Rendered(UnsignedOf(s.lm, n), 16, false), s.width, s.zero, s.left), 1)
    case 'X' => (Padded("", Rendered(UnsignedOf(s.lm, n), 16, true), s.width, s.zero, s.left), 1)
    case 'p' => (Padded("0x", Rendered(n % TWO32, 16, false), s.width, s.zero, s.left), 1)
    case _ => ("%" + [c], 0)
  }

  function SignedField(s: Spec, n: nat): string
    requires n < TWO64
  {
    var v := SignedOf(s.lm, n);
    Padded(Sign(v), Rendered(Magnitude(v), 10, false), s.width, s.zero, s.left)
  }

  /** The characters a format string produces from index @p p on, with arguments from @p a. */
  function Stream(fmt: string, p: nat, args: seq<Arg>, a: nat): string
    requires p <= |fmt|
    decreases |fmt| - p
  {
    if p == |fmt| then ""
    else if fmt[p] != '%' then [fmt[p]] + Stream(fmt, p + 1, args, a)
    else
      var s := ParseSpec(fmt, p + 1);
      if s.at == |fmt| then "%"
      else
        var (out, used) := Convert(s, fmt[s.at], args, a);
        out + Stream(fmt, s.at + 1, args, a + used)
  }

  lemma SignedBody(s: Spec, n: nat)
    requires n < TWO64
    ensures var v := SignedOf(s.lm, n);
            Parsed(Rendered(Magnitude(v), 10, false), 10) == Some(Magnitude(v)) && |Rendered(Magnitude(v), 10, false)| <= 20
  {
    RenderedParsesBack(Magnitude(SignedOf(s.lm, n)), 10, false);
  }

  // ---- what a reader of a field gets ---------------------------------------------------

  function TrimLeft(s: string): string
    decreases |s|
  {
    if s != "" && s[0] == ' ' then TrimLeft(s[1..]) else s
  }

  function TrimRight(s: string): string
    decreases |s|
  {
    if s != "" && s[|s| - 1] == ' ' then TrimRight(s[..|s| - 1]) else s
  }

  /** A reader that takes spaces off both ends, then an optional minus and decimal digits. */
  function ReadSigned(s: string): Option<int> {
    var t := TrimRight(TrimLeft(s));
    var minus := t != "" && t[0] == '-';
    var mag := Parsed(if minus then t[1..] else t, 10);
    if mag.None? then None
    else
      var m: int := mag.value;
      Some(if minus then -m else m)
  }

  function ReadUnsigned(s: string, base: nat): Option<nat> { Parsed(TrimRight(TrimLeft(s)), base) }

  /** Text with something other than a space at either end. */
  predicate Solid(s: string) { s != "" && s[0] != ' ' && s[|s| - 1] != ' ' }

  lemma {:induction false} TrimLeftPad(n: nat, core: string)
    requires Solid(core)
    ensures TrimLeft(Repeat(' ', n) + core) == core
  {
    var t := Repeat(' ', n) + core;
    if n == 0 {
      assert t == core;
    } else {
      assert t[1..] == Repeat(' ', n - 1) + core;
      TrimLeftPad(n - 1, core);
    }
  }

  lemma {:induction false} TrimRightPad(n: nat, core: string)
    requires Solid(core)
    ensures TrimRight(core + Repeat(' ', n)) == core
  {
    var t := core + Repeat(' ', n);
    if n == 0 {
      assert t == core;
    } else {
      assert t[..|t| - 1] == core + Repeat(' ', n - 1);
      TrimRightPad(n - 1, core);
    }
  }

  /** Taking the spaces off a field leaves prefix and body, with the zeros between them. */
  lemma TrimPadded(prefix: string, body: string, width: int, zero: bool, left: bool)
    requires Solid(body) && (prefix == "" || Solid(prefix))
    ensures TrimRight(TrimLeft(Padded(prefix, body, width, zero, left))) ==
            prefix + Repeat('0', if zero && !left then Padding(|prefix| + |body|, width) else 0) + body
  {
    hide TrimLeft, TrimRight;
    var pad := Padding(|prefix| + |body|, width);
    var core := prefix + body;
    assert Solid(core);
    var zeros := prefix + Repeat('0', pad) + body;
    assert Solid(zeros);
    assert prefix + Repeat('0', 0) + body == core;
    if left {
      assert Padded(prefix, body, width, zero, left) == Repeat(' ', 0) + (core + Repeat(' ', pad));
      PadStart(core, pad);
      TrimRightPad(pad, core);
    } else if zero {
      assert Padded(prefix, body, width, zero, left) == Repeat(' ', 0) + zeros;
      TrimLeftPad(0, zeros);
      TrimRightPad(0, zeros);
      assert zeros + Repeat(' ', 0) == zeros;
    } else {
      assert Padded(prefix, body, width, zero, left) == Repeat(' ', pad) + core;
      TrimLeftPad(pad, core);
      TrimRightPad(0, core);
      assert core + Repeat(' ', 0) == core;
    }
  }

  /** Nothing comes off the left of text that starts with something other than a space. */
  lemma PadStart(core: string, n: nat)
    requires Solid(core)
    ensures TrimLeft(Repeat(' ', 0) + (core + Repeat(' ', n))) == core + Repeat(' ', n)
  {
    assert Repeat(' ', 0) + (core + Repeat(' ', n)) == core + Repeat(' ', n);
  }

  lemma RenderedSolid(mag: nat, base: nat, upper: bool)
    requires base in {10, 16}
    ensures var s := Rendered(mag, base, upper); Solid(s) && s[0] != '-'
  {
    var d := Numerals.Digits(mag, base);
    NotBlank(d[0], upper);
    NotBlank(d[|d| - 1], upper);
  }

  lemma NotBlank(d: nat, upper: bool)
    requires d < 16
    ensures DigitChar(d, upper) != ' ' && DigitChar(d, upper) != '-'
  {
  }

  /** A %d field of any width, padded with spaces on either side or with zeros, reads back as
      the number, for every argument including the most negative 64-bit one. */
  lemma SignedReadsBack(s: Spec, n: nat)
    requires n < TWO64
    ensures ReadSigned(SignedField(s, n)) == Some(SignedOf(s.lm, n))
  {
    hide Rendered, Parsed, SignedOf, Padded, TrimLeft, TrimRight, Padding, ReadSigned;
    SignedBody(s, n);
    var v := SignedOf(s.lm, n);
    var body := Rendered(Magnitude(v), 10, false);
    RenderedSolid(Magnitude(v), 10, false);
    var pad := if s.zero && !s.left then Padding(|Sign(v)| + |body|, s.width) else 0;
    TrimPadded(Sign(v), body, s.width, s.zero, s.left);
    ReadTrimmed(SignedField(s, n), v, body, pad);
  }

  lemma ReadTrimmed(field: string, v: int, body: string, pad: nat)
    requires TrimRight(TrimLeft(field)) == Sign(v) + Repeat('0', pad) + body
    requires Solid(body) && body[0] != '-' && Parsed(body, 10) == Some(Magnitude(v))
    ensures ReadSigned(field) == Some(v)
  {
    hide Parsed, TrimLeft, TrimRight;
    LeadingZeros(pad, body, 10);
    var t := Sign(v) + Repeat('0', pad) + body;
    if v < 0 {
      assert t[1..] == Repeat('0', pad) + body;
    } else {
      assert t == Repeat('0', pad) + body;
    }
  }

  /** A %d field that needs no padding is the optional minus and the digits alone; any other
      is exactly as wide as asked for. */
  lemma SignedShape(s: Spec, n: nat)
    requires n < TWO64
    ensures var v := SignedOf(s.lm, n); var bare := Sign(v) + Rendered(Magnitude(v), 10, false);
            && (s.width <= |bare| <==> SignedField(s, n) == bare)
            && (s.width > |bare| ==> |SignedField(s, n)| == s.width)
  {
    hide Rendered, SignedOf;
    assert Repeat('0', 0) == "" && Repeat(' ', 0) == "";
  }

  /** The same for the unsigned conversions. */
  lemma UnsignedReadsBack(mag: nat, base: nat, upper: bool, width: nat, zero: bool, left: bool)
    requires base in {10, 16}
    ensures ReadUnsigned(Padded("", Rendered(mag, base, upper), width, zero, left), base) == Some(mag)
  {
    hide Rendered, Parsed, Padded, TrimLeft, TrimRight, Padding;
    var body := Rendered(mag, base, upper);
    RenderedParsesBack(mag, base, upper);
    RenderedSolid(mag, base, upper);
    TrimPadded("", body, width, zero, left);
    var pad := if zero && !left then Padding(0 + |body|, width) else 0;
    LeadingZeros(pad, body, base);
    assert "" + Repeat('0', pad) + body == Repeat('0', pad) + body;
  }

  /** A zero-padded %d field reads back after its sign. */
  lemma ZeroPaddedReadsBack(s: Spec, n: nat)
    requires n < TWO64 && s.zero && !s.left
    ensures var v := SignedOf(s.lm, n); var field := SignedField(s, n);
            |Sign(v)| <= |field| && field[..|Sign(v)|] == Sign(v)
            && Parsed(field[|Sign(v)|..], 10) == Some(if v < 0 then -v else v)
  {
    hide Rendered, Parsed, SignedOf;
    SignedBody(s, n);
    var v := SignedOf(s.lm, n);
    var body := Rendered(Magnitude(v), 10, false);
    var pad := Padding(|Sign(v)| + |body|, s.width);
    LeadingZeros(pad, body, 10);
    assert SignedField(s, n) == Sign(v) + (Repeat('0', pad) + body);
  }
}
