/** The formatter of svc/fmt.c in place: the cursor over the format string, the digit
    buffers, and the sink that stores what fits. */
module FmtDevice {
  import opened Machine
  import opened Fmt
  import Numerals

  /** The fixed-buffer sink; @p stream is every character put so far. */
  class Sink {
    const buf: array<char>
    const size: nat
    var pos: nat
    ghost var stream: string

    ghost predicate Valid()
      reads this, buf
    {
      && 0 < size <= buf.Length && pos == Min(|stream|, size - 1)
      && buf[..pos] == stream[..pos]
    }

    constructor (b: array<char>, n: nat)
      requires 0 < n <= b.Length
      ensures Valid() && buf == b && size == n && stream == "" && pos == 0
    {
      buf, size, pos, stream := b, n, 0, "";
    }

    /** `snbuf_putc`. */
    method Put(c: char)
      requires Valid()
      modifies `pos, `stream, buf
      ensures Valid() && stream == old(stream) + [c]
      ensures forall i :: size <= i < buf.Length ==> buf[i] == old(buf[i])
    {
      if pos + 1 < size {
        buf[pos] := c;
        pos := pos + 1;
      }
      stream := stream + [c];
    }

    method PutAll(s: string)
      requires Valid()
      modifies `pos, `stream, buf
      ensures Valid() && stream == old(stream) + s
      ensures forall i :: size <= i < buf.Length ==> buf[i] == old(buf[i])
    {
      var i := 0;
      while i < |s|
        invariant i <= |s| && Valid() && stream == old(stream) + s[..i]
        invariant forall j :: size <= j < buf.Length ==> buf[j] == old(buf[j])
      {
        Put(s[i]);
        assert s[..i] + [s[i]] == s[..i + 1];
        i := i + 1;
      }
      assert s[..i] == s;
    }

    method PutPad(c: char, n: nat)
      requires Valid()
      modifies `pos, `stream, buf
      ensures Valid() && stream == old(stream) + Repeat(c, n)
      ensures forall i :: size <= i < buf.Length ==> buf[i] == old(buf[i])
    {
      var pad := n;
      assert Repeat(c, 0) == "";
      while pad > 0
        invariant 0 <= pad <= n && Valid() && stream == old(stream) + Repeat(c, n - pad)
        invariant forall j :: size <= j < buf.Length ==> buf[j] == old(buf[j])
      {
        Put(c);
        assert Repeat(c, n - pad) + [c] == Repeat(c, n - pad + 1);
        pad := pad - 1;
      }
    }

    /** `fmt_padded`. */
    method PutField(prefix: string, body: string, width: int, zero: bool, left: bool)
      requires Valid()
      modifies `pos, `stream, buf
      ensures Valid() && stream == old(stream) + Padded(prefix, body, width, zero, left)
      ensures forall i :: size <= i < buf.Length ==> buf[i] == old(buf[i])
    {
      hide Repeat, Valid, Padded;
      var total := |prefix| + |body|;
      var pad := if width > total then width - total else 0;
      ghost var s0 := stream;
      if left {
        PutAll(prefix);
        PutAll(body);
        PutPad(' ', pad);
      } else if zero {
        PutAll(prefix);
        PutPad('0', pad);
        PutAll(body);
      } else {
        PutPad(' ', pad);
        PutAll(prefix);
        PutAll(body);
      }
      PaddedParts(s0, prefix, body, width, zero, left);
    }

    /** One conversion of `fmt_vformat`; @p used, the arguments read. */
    method PutConversion(s: Spec, c: char, args: seq<Arg>, a: nat) returns (used: nat)
      requires Valid()
      modifies `pos, `stream, buf
      ensures Valid() && stream == old(stream) + Convert(s, c, args, a).0 && used == Convert(s, c, args, a).1
      ensures forall i :: size <= i < buf.Length ==> buf[i] == old(buf[i])
    {
      hide Padded, Rendered, SignedOf, UnsignedOf, Magnitude, Valid;
      var n := NumAt(args, a);
      match c {
        case '%' =>
          Put('%');
          used := 0;
        case 'c' =>
          PutField("", [(n % 256) as char], s.width, false, s.left);
          used := 1;
        case 's' =>
          PutField("", TextAt(args, a), s.width, false, s.left);
          used := 1;
        case 'd' =>
          PutSigned(s, n);
          used := 1;
        case 'i' =>
          PutSigned(s, n);
          used := 1;
        case 'u' =>
          PutNumber("", UnsignedOf(s.lm, n), 10, false, s);
          used := 1;
        case 'x' =>
          PutNumber("", UnsignedOf(s.lm, n), 16, false, s);
          used := 1;
        case 'X' =>
          PutNumber("", UnsignedOf(s.lm, n), 16, true, s);
          used := 1;
        case 'p' =>
          PutNumber("0x", n % TWO32, 16, false, s);
          used := 1;
        case _ =>
          PutAll("%" + [c]);
          used := 0;
      }
    }

    /** The signed conversions: the magnitude is formed without negating the most negative
        value in its own type. */
    method PutSigned(s: Spec, n: nat)
      requires Valid() && n < TWO64
      modifies `pos, `stream, buf
      ensures Valid() && stream == old(stream) + SignedField(s, n)
      ensures forall i :: size <= i < buf.Length ==> buf[i] == old(buf[i])
    {
      var v := SignedOf(s.lm, n);
      var mag := if v < 0 then -(v + 1) + 1 else v;
      PutNumber(Sign(v), mag, 10, false, s);
    }

    method PutNumber(prefix: string, mag: nat, base: nat, upper: bool, s: Spec)
      requires Valid() && base in {10, 16} && mag < TWO64
      modifies `pos, `stream, buf
      ensures Valid() && stream == old(stream) + Padded(prefix, Rendered(mag, base, upper), s.width, s.zero, s.left)
      ensures forall i :: size <= i < buf.Length ==> buf[i] == old(buf[i])
    {
      hide Padded, Rendered;
      var body := new char[20];
      var n := Utoa(mag, base, upper, body);
      PutField(prefix, body[..n], s.width, s.zero, s.left);
    }

    /** `fmt_vformat`: the cursor passes over the format string once. */
    method Format(fmt: string, args: seq<Arg>)
      requires Valid()
      modifies `pos, `stream, buf
      ensures Valid() && stream == old(stream) + Stream(fmt, 0, args, 0)
      ensures forall i :: size <= i < buf.Length ==> buf[i] == old(buf[i])
    {
      hide Convert, ParseSpec, Valid;
      var p, a := 0, 0;
      while p < |fmt|
        invariant p <= |fmt| && Valid()
        invariant stream + Stream(fmt, p, args, a) == old(stream) + Stream(fmt, 0, args, 0)
        invariant forall i :: size <= i < buf.Length ==> buf[i] == old(buf[i])
        decreases |fmt| - p
      {
        ghost var before := stream;
        if fmt[p] != '%' {
          Put(fmt[p]);
          assert before + ([fmt[p]] + Stream(fmt, p + 1, args, a)) == stream + Stream(fmt, p + 1, args, a);
          p := p + 1;
        } else {
          var s := ScanSpec(fmt, p + 1);
          if s.at == |fmt| {
            Put('%');
            return;
          }
          var used := PutConversion(s, fmt[s.at], args, a);
          assert before + (Convert(s, fmt[s.at], args, a).0 + Stream(fmt, s.at + 1, args, a + used)) ==
                 stream + Stream(fmt, s.at + 1, args, a + used);
          p, a := s.at + 1, a + used;
        }
      }
    }
  }

  /** The three pieces of a field, put one after the other. */
  lemma PaddedParts(s0: string, prefix: string, body: string, width: int, zero: bool, left: bool)
    ensures var pad := Padding(|prefix| + |body|, width);
            s0 + Padded(prefix, body, width, zero, left) ==
            if left then s0 + prefix + body + Repeat(' ', pad)
            else if zero then s0 + prefix + Repeat('0', pad) + body
            else s0 + Repeat(' ', pad) + prefix + body
  {
    hide Repeat;
  }

  /** `fmt_utoa`. */
  method Utoa(mag: nat, base: nat, upper: bool, buf: array<char>) returns (n: nat)
    requires base in {10, 16} && mag < TWO64 && buf.Length >= 20
    modifies buf
    ensures n <= 20 && buf[..n] == Rendered(mag, base, upper)
    ensures forall i :: n <= i < buf.Length ==> buf[i] == old(buf[i])
  {
    hide Rendered, Parsed, DigitChar;
    RenderedParsesBack(mag, base, upper);
    var tmp := new nat[20];
    n := Numerals.Peel(mag, base, tmp);
    BackToFront(mag, base, upper, tmp[..n]);
    CopyBack(tmp, n, upper, buf, Rendered(mag, base, upper));
  }

  /** Digits taken off last one first, read from the end, are the characters. */
  ghost predicate Spells(low: seq<nat>, upper: bool, s: string) {
    |s| == |low| && forall j :: 0 <= j < |s| ==> Numerals.Backwards(low)[j] < 16 && s[j] == DigitChar(Numerals.Backwards(low)[j], upper)
  }

  lemma BackToFront(mag: nat, base: nat, upper: bool, low: seq<nat>)
    requires base in {10, 16} && Numerals.Backwards(low) == Numerals.Digits(mag, base)
    ensures Spells(low, upper, Rendered(mag, base, upper))
  {
    hide DigitChar;
  }

  /** The second loop: the digits of @p tmp from the last one on, as characters. */
  method CopyBack(tmp: array<nat>, n: nat, upper: bool, buf: array<char>, ghost s: string)
    requires n <= tmp.Length && n <= buf.Length && Spells(tmp[..n], upper, s)
    modifies buf
    ensures buf[..n] == s
    ensures forall i :: n <= i < buf.Length ==> buf[i] == old(buf[i])
  {
    hide DigitChar;
    ghost var low := tmp[..n];
    var i := 0;
    while i < n
      invariant i <= n && tmp[..n] == low && buf[..i] == s[..i]
      invariant forall j :: n <= j < buf.Length ==> buf[j] == old(buf[j])
    {
      assert tmp[n - 1 - i] == low[n - 1 - i] == Numerals.Backwards(low)[i];
      assert s[i] == DigitChar(Numerals.Backwards(low)[i], upper);
      buf[i] := DigitChar(tmp[n - 1 - i], upper);
      assert buf[..i + 1] == buf[..i] + [buf[i]];
      i := i + 1;
    }
  }

  /** The flag, width and length loops of `fmt_vformat`. */
  method ScanSpec(fmt: string, start: nat) returns (s: Spec)
    requires start <= |fmt|
    ensures s == ParseSpec(fmt, start)
  {
    var p, left, zero := start, false, false;
    while p < |fmt| && (fmt[p] == '-' || fmt[p] == '0')
      invariant p <= |fmt| && Flags(fmt, start, false, false) == Flags(fmt, p, left, zero)
    {
      if fmt[p] == '-' { left := true; } else { zero := true; }
      p := p + 1;
    }
    ghost var p1 := p;
    var width: nat := 0;
    while p < |fmt| && IsDigit(fmt[p])
      invariant p <= |fmt| && Width(fmt, p1, 0) == Width(fmt, p, width)
    {
      width := width * 10 + (fmt[p] as int - '0' as int);
      if width > 4096 { width := 4096; }
      p := p + 1;
    }
    var lm := LmInt;
    if p < |fmt| && fmt[p] == 'l' {
      p := p + 1;
      if p < |fmt| && fmt[p] == 'l' {
        lm, p := LmLongLong, p + 1;
      } else {
        lm := LmLong;
      }
    } else if p < |fmt| && fmt[p] == 'z' {
      lm, p := LmSize, p + 1;
    }
    s := Spec(left, zero, width, lm, p);
  }

  /** `fmt_vsnformat`: the first size - 1 characters of the stream and a NUL, and nothing
      beyond; with size 0 nothing at all. */
  method Vsnformat(buf: array<char>, size: nat, fmt: string, args: seq<Arg>) returns (n: nat)
    requires size <= buf.Length
    modifies buf
    ensures size == 0 ==> n == 0 && buf[..] == old(buf[..])
    ensures size > 0 ==>
              var stream := Stream(fmt, 0, args, 0);
              n == Min(|stream|, size - 1) && buf[..n] == stream[..n] && buf[n] == '\0'
    ensures forall i :: size <= i < buf.Length ==> buf[i] == old(buf[i])
  {
    if size == 0 { return 0; }
    var s := new Sink(buf, size);
    s.Format(fmt, args);
    assert "" + Stream(fmt, 0, args, 0) == Stream(fmt, 0, args, 0);
    ghost var stored := buf[..s.pos];
    buf[s.pos] := '\0';
    assert buf[..s.pos] == stored;
    n := s.pos;
  }
}
