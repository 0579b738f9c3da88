/** The YMODEM-CRC wire format of svc/ymodem.c: blocks, block 0, and an independent
    receiver that validates complement and CRC, drops repeats by sequence number and cuts
    the padding by the announced size. */
module YmodemFormat {
  import opened Machine
  import opened Crc16
  import Numerals

  const SOH: octet := 0x01
  const STX: octet := 0x02
  const EOT: octet := 0x04
  const PADDING: octet := 0x1A
  const CANCEL: seq<octet> := [0x18, 0x18, 0x18, 0x18, 0x18, 8, 8, 8, 8, 8, 8, 8, 8]

  // ---- blocks --------------------------------------------------------------------

  function Frame(kind: octet, number: octet, data: seq<octet>): (f: seq<octet>) {
    [kind, number, !number] + data + Trailer(Crc(data))
  }

  datatype Message = Block(number: octet, data: seq<octet>) | End | Garbage

  /** How a receiver reads one transmission. */
  function Read(m: seq<octet>): Message {
    if m == [EOT] then End
    else if |m| >= 5 && |m| == (if m[0] == SOH then 133 else 1029) && m[0] in {SOH, STX}
            && m[1] ^ m[2] == 0xFF && Crc(m[3..]) == 0 then
      Block(m[1], m[3..|m| - 2])
    else Garbage
  }

  lemma Complement(n: octet)
    ensures n ^ !n == 0xFF
  {
  }

  lemma ReadsFrame(kind: octet, number: octet, data: seq<octet>)
    requires (kind == SOH && |data| == 128) || (kind == STX && |data| == 1024)
    ensures Read(Frame(kind, number, data)) == Block(number, data)
  {
    hide Crc, High, Low;
    var f := Frame(kind, number, data);
    Complement(number);
    Sealed(data, Trailer(Crc(data)));
    assert f[3..] == data + Trailer(Crc(data));
    assert f[3..|f| - 2] == data;
  }

  // ---- block 0 ---------------------------------------------------------------------

  function DigitByte(d: nat): octet
    requires d < 10
  {
    match d
    case 0 => 0x30 case 1 => 0x31 case 2 => 0x32 case 3 => 0x33 case 4 => 0x34
    case 5 => 0x35 case 6 => 0x36 case 7 => 0x37 case 8 => 0x38 case _ => 0x39
  }

  function DigitOf(b: octet): Option<nat> {
    match b
    case 0x30 => Some(0) case 0x31 => Some(1) case 0x32 => Some(2) case 0x33 => Some(3) case 0x34 => Some(4)
    case 0x35 => Some(5) case 0x36 => Some(6) case 0x37 => Some(7) case 0x38 => Some(8) case 0x39 => Some(9)
    case _ => None
  }

  function DigitBytes(d: seq<nat>): (s: seq<octet>)
    requires forall i :: 0 <= i < |d| ==> d[i] < 10
    ensures |s| == |d| && forall i :: 0 <= i < |d| ==> s[i] == DigitByte(d[i])
  {
    seq(|d|, i requires 0 <= i < |d| => DigitByte(d[i]))
  }

  /** The decimal rendering of a size. */
  function Decimal(v: nat): seq<octet> { DigitBytes(Numerals.Digits(v, 10)) }

  function ParseDecimal(s: seq<octet>): Option<nat>
    decreases |s|
  {
    if s == [] then Some(0)
    else
      match (ParseDecimal(s[..|s| - 1]), DigitOf(s[|s| - 1]))
      case (Some(v), Some(d)) => Some(v * 10 + d)
      case _ => None
  }

  function ZeroBytes(n: nat): (z: seq<octet>)
    ensures |z| == n && forall i :: 0 <= i < n ==> z[i] == 0
  {
    seq(n, _ => 0)
  }

  const DEFAULT_NAME: seq<octet> := [0x66, 0x69, 0x6C, 0x65, 0x2E, 0x62, 0x69, 0x6E]

  /** A C string: no zero byte inside. */
  predicate IsName(name: seq<octet>) { forall b <- name :: b != 0 }

  /** The name that block 0 carries: at most 100 characters, a default for no name. */
  function SentName(name: seq<octet>): (n: seq<octet>)
    ensures |n| <= 100 && n != []
    ensures IsName(name) ==> IsName(n)
  {
    if name == [] then DEFAULT_NAME else if |name| <= 100 then name else
      assert forall b <- name[..100] :: b in name;
      name[..100]
  }

  /** Block 0: name, NUL, decimal size, and zeros up to 128 bytes. */
  function Block0(name: seq<octet>, size: u32): (d: seq<octet>) {
    var head := SentName(name) + [0] + Decimal(size);
    head + ZeroBytes(if |head| <= 128 then 128 - |head| else 0)
  }

  /** The bytes before the first zero. */
  function UpToZero(s: seq<octet>): (p: seq<octet>)
    ensures |p| <= |s| && IsName(p)
    decreases |s|
  {
    if s == [] || s[0] == 0 then [] else [s[0]] + UpToZero(s[1..])
  }

  datatype Header = Header(name: seq<octet>, size: nat)

  function ParseBlock0(d: seq<octet>): Option<Header> {
    var name := UpToZero(d);
    if |name| >= |d| then None
    else
      var digits := UpToZero(d[|name| + 1..]);
      match ParseDecimal(digits)
      case Some(v) => if digits == [] then None else Some(Header(name, v))
      case None => None
  }

  lemma DecimalShort(v: u32)
    ensures 1 <= |Decimal(v)| <= 10
  {
    assert Numerals.Pow(10, 10) == 10_000_000_000 by {
      assert Numerals.Pow(10, 5) == 100_000;
      assert Numerals.Pow(10, 10) == 10 * 10 * 10 * 10 * 10 * Numerals.Pow(10, 5);
    }
    Numerals.FewDigits(v, 10, 10);
  }

  lemma {:induction false} ParsesDigits(d: seq<nat>)
    requires forall i :: 0 <= i < |d| ==> d[i] < 10
    ensures ParseDecimal(DigitBytes(d)) == Some(Numerals.Value(d, 10))
    decreases |d|
  {
    if d == [] {
    } else {
      var n := |d| - 1;
      assert DigitBytes(d)[..n] == DigitBytes(d[..n]);
      ParsesDigits(d[..n]);
      assert DigitOf(DigitByte(d[n])) == Some(d[n]);
    }
  }

  lemma DecimalIsName(v: nat)
    ensures IsName(Decimal(v))
  {
    var d := Numerals.Digits(v, 10);
    assert forall i :: 0 <= i < |d| ==> DigitByte(d[i]) != 0;
  }

  lemma {:induction false} UpToZeroStops(s: seq<octet>, t: seq<octet>)
    requires IsName(s) && t != [] && t[0] == 0
    ensures UpToZero(s + t) == s
    decreases |s|
  {
    if s == [] {
      assert s + t == t;
    } else {
      assert s[0] in s;
      assert (s + t)[1..] == s[1..] + t;
      assert IsName(s[1..]) by { assert forall b <- s[1..] :: b in s; }
      UpToZeroStops(s[1..], t);
    }
  }

  /** Block 0 is 128 bytes and a receiver reads the name and the exact size back. */
  lemma Block0RoundTrip(name: seq<octet>, size: u32)
    requires IsName(name)
    ensures |Block0(name, size)| == 128
    ensures ParseBlock0(Block0(name, size)) == Some(Header(SentName(name), size))
  {
    hide UpToZero, ParseDecimal, Decimal;
    DecimalShort(size);
    var n, dec := SentName(name), Decimal(size);
    var zeros := ZeroBytes(128 - |n + [0] + dec|);
    assert Block0(name, size) == n + ([0] + dec + zeros) == (n + [0]) + (dec + zeros);
    UpToZeroStops(n, [0] + dec + zeros);
    DecimalIsName(size);
    UpToZeroStops(dec, zeros);
    assert Block0(name, size)[|n| + 1..] == dec + zeros;
    DecimalParses(size);
  }

  lemma DecimalParses(v: u32)
    ensures ParseDecimal(Decimal(v)) == Some(v)
  {
    ParsesDigits(Numerals.Digits(v, 10));
    Numerals.ParsesBack(v, 10);
  }

  // ---- the file --------------------------------------------------------------------

  /** Padding of a short block, to 128 or 1024 bytes. */
  function Pad(chunk: seq<octet>): (d: seq<octet>)
    requires |chunk| <= 1024
    ensures |d| == (if |chunk| <= 128 then 128 else 1024) && chunk <= d
    ensures forall i :: |chunk| <= i < |d| ==> d[i] == PADDING
  {
    chunk + seq((if |chunk| <= 128 then 128 else 1024) - |chunk|, _ => PADDING)
  }

  function DataFrame(number: octet, chunk: seq<octet>): seq<octet>
    requires |chunk| <= 1024
  {
    Frame(if |chunk| <= 128 then SOH else STX, number, Pad(chunk))
  }

  /** The 8-bit number of data block @p n. */
  function Number(n: nat): octet { if n == 0 then 0 else Number(n - 1) + 1 }

  predicate Sizes(chunks: seq<seq<octet>>) { forall c <- chunks :: 0 < |c| <= 1024 }

  function DataFrames(chunks: seq<seq<octet>>): (f: seq<seq<octet>>)
    requires Sizes(chunks)
    ensures |f| == |chunks|
    decreases |chunks|
  {
    if chunks == [] then []
    else DataFrames(chunks[..|chunks| - 1]) + [DataFrame(Number(|chunks|), chunks[|chunks| - 1])]
  }

  /** Everything a complete session transmits, each message once. */
  function Plan(name: seq<octet>, size: u32, chunks: seq<seq<octet>>): seq<seq<octet>>
    requires Sizes(chunks)
  {
    [Frame(SOH, 0, Block0(name, size))] + DataFrames(chunks) + [[EOT], Frame(SOH, 0, ZeroBytes(128))]
  }

  function Flat(chunks: seq<seq<octet>>): seq<octet>
    decreases |chunks|
  {
    if chunks == [] then [] else Flat(chunks[..|chunks| - 1]) + chunks[|chunks| - 1]
  }

  function Padded(chunks: seq<seq<octet>>): seq<octet>
    requires Sizes(chunks)
    decreases |chunks|
  {
    if chunks == [] then [] else Padded(chunks[..|chunks| - 1]) + Pad(chunks[|chunks| - 1])
  }

  /** Only the last block may be short. */
  predicate Full(chunks: seq<seq<octet>>) { forall i :: 0 <= i < |chunks| - 1 ==> |chunks[i]| == 1024 }

  lemma {:induction false} FullIsFlat(chunks: seq<seq<octet>>)
    requires Sizes(chunks) && forall c <- chunks :: |c| == 1024
    ensures Padded(chunks) == Flat(chunks)
    decreases |chunks|
  {
    hide Pad;
    if chunks == [] {
    } else {
      var k := |chunks| - 1;
      assert chunks[k] in chunks;
      FullPrefix(chunks, k);
      FullIsFlat(chunks[..k]);
      FullPad(chunks[k]);
    }
  }

  lemma FullPrefix(chunks: seq<seq<octet>>, k: nat)
    requires k <= |chunks| && Sizes(chunks) && forall c <- chunks :: |c| == 1024
    ensures Sizes(chunks[..k]) && forall c <- chunks[..k] :: |c| == 1024
  {
    forall c | c in chunks[..k] ensures c in chunks {
      var i :| 0 <= i < k && chunks[..k][i] == c;
      assert c == chunks[i];
    }
  }

  lemma FullPad(c: seq<octet>)
    requires |c| == 1024
    ensures Pad(c) == c
  {
  }

  /** The padding comes after the file. */
  lemma PaddedExtends(chunks: seq<seq<octet>>)
    requires Sizes(chunks) && Full(chunks)
    ensures Flat(chunks) <= Padded(chunks)
  {
    if chunks != [] {
      var k := |chunks| - 1;
      assert chunks[k] in chunks;
      forall c | c in chunks[..k] ensures c in chunks && |c| == 1024 {
        var i :| 0 <= i < k && chunks[..k][i] == c;
        assert c == chunks[i];
      }
      FullIsFlat(chunks[..k]);
    }
  }

  // ---- repeats -----------------------------------------------------------------------

  function Rep(m: seq<octet>, n: nat): (r: seq<seq<octet>>)
    ensures |r| == n && forall i :: 0 <= i < n ==> r[i] == m
  {
    seq(n, _ => m)
  }

  /** Message i of @p ms sent counts[i] times in a row. */
  function Expand(ms: seq<seq<octet>>, counts: seq<nat>): seq<seq<octet>>
    requires |ms| == |counts|
    decreases |ms|
  {
    if ms == [] then []
    else var k := |ms| - 1; Expand(ms[..k], counts[..k]) + Rep(ms[k], counts[k])
  }

  // ---- the receiver -------------------------------------------------------------------

  datatype Receiver =
    | Waiting
    | Receiving(header: Header, next: octet, data: seq<octet>)
    | Ended(header: Header, data: seq<octet>)
    | Closed(header: Header, data: seq<octet>)
    | Failed

  function Take(r: Receiver, m: seq<octet>): Receiver {
    match (r, Read(m))
    case (Waiting, Block(n, d)) =>
      if n != 0 then Failed else (match ParseBlock0(d) case Some(h) => Receiving(h, 1, []) case None => Failed)
    case (Receiving(h, next, data), Block(n, d)) =>
      if n == next then Receiving(h, next + 1, data + d) else if n + 1 == next then r else Failed
    case (Receiving(h, _, data), End) => Ended(h, data)
    case (Ended(_, _), End) => r
    case (Ended(h, data), Block(n, d)) => if n == 0 && d != [] && d[0] == 0 then Closed(h, data) else Failed
    case (Closed(_, _), Block(n, d)) => if n == 0 && d != [] && d[0] == 0 then r else Failed
    case _ => Failed
  }

  function TakeAll(r: Receiver, ms: seq<seq<octet>>): Receiver
    decreases |ms|
  {
    if ms == [] then r else Take(TakeAll(r, ms[..|ms| - 1]), ms[|ms| - 1])
  }

  /** Hearing a message twice changes nothing, even when the number wraps. */
  lemma TakeTwice(r: Receiver, m: seq<octet>)
    ensures Take(Take(r, m), m) == Take(r, m)
  {
    hide Read, ParseBlock0;
    match Read(m)
    case Block(n, d) => NextDiffers(n);
    case _ =>
  }

  lemma NextDiffers(n: octet)
    ensures n + 1 != n && 0 + 1 == 1 as octet
  {
  }

  lemma {:induction false} TakeRepeats(r: Receiver, ms: seq<seq<octet>>, m: seq<octet>, n: nat)
    requires n >= 1
    ensures TakeAll(r, ms + Rep(m, n)) == Take(TakeAll(r, ms), m)
    decreases n
  {
    hide Take;
    var all := ms + Rep(m, n);
    assert all[..|all| - 1] == ms + Rep(m, n - 1) && all[|all| - 1] == m;
    if n > 1 {
      TakeRepeats(r, ms, m, n - 1);
      TakeTwice(TakeAll(r, ms), m);
    } else {
      assert ms + Rep(m, 0) == ms;
    }
  }

  lemma {:induction false} DropsRepeats(r: Receiver, ms: seq<seq<octet>>, counts: seq<nat>)
    requires |ms| == |counts| && forall c <- counts :: c >= 1
    ensures TakeAll(r, Expand(ms, counts)) == TakeAll(r, ms)
    decreases |ms|
  {
    hide Take;
    if ms == [] {
    } else {
      var k := |ms| - 1;
      assert counts[k] in counts;
      assert forall c <- counts[..k] :: c in counts;
      DropsRepeats(r, ms[..k], counts[..k]);
      TakeRepeats(r, Expand(ms[..k], counts[..k]), ms[k], counts[k]);
    }
  }

  lemma {:induction false} TakesData(name: seq<octet>, size: u32, chunks: seq<seq<octet>>)
    requires IsName(name) && Sizes(chunks)
    ensures TakeAll(Waiting, [Frame(SOH, 0, Block0(name, size))] + DataFrames(chunks)) ==
            Receiving(Header(SentName(name), size), Number(|chunks| + 1), Padded(chunks))
    decreases |chunks|
  {
    hide Frame, Read, ParseBlock0, Block0, Take, Pad, Padded, SentName, DataFrame, Number, Sizes;
    var b0 := Frame(SOH, 0, Block0(name, size));
    var ms := [b0] + DataFrames(chunks);
    if chunks == [] {
      assert ms == [b0] && ms[..0] == [];
      TakesHeader(name, size);
      assert Number(1) == 1 && Padded(chunks) == [] by { FirstNumbers(); }
    } else {
      var k := |chunks| - 1;
      var c := chunks[k];
      PaddedMore(chunks);
      TakesData(name, size, chunks[..k]);
      assert ms[..|ms| - 1] == [b0] + DataFrames(chunks[..k]);
      assert ms[|ms| - 1] == DataFrame(Number(|chunks|), c);
      TakesBlock(Header(SentName(name), size), |chunks|, Padded(chunks[..k]), c);
    }
  }

  lemma FirstNumbers()
    ensures Number(1) == 1 && Padded([]) == []
  {
  }

  lemma PaddedMore(chunks: seq<seq<octet>>)
    requires Sizes(chunks) && chunks != []
    ensures var k := |chunks| - 1;
            Sizes(chunks[..k]) && 0 < |chunks[k]| <= 1024 && Padded(chunks) == Padded(chunks[..k]) + Pad(chunks[k])
  {
    var k := |chunks| - 1;
    assert chunks[k] in chunks;
    assert forall d <- chunks[..k] :: d in chunks;
  }

  lemma TakesHeader(name: seq<octet>, size: u32)
    requires IsName(name)
    ensures Take(Waiting, Frame(SOH, 0, Block0(name, size))) == Receiving(Header(SentName(name), size), 1, [])
  {
    hide Frame, Read, ParseBlock0, Block0;
    Block0RoundTrip(name, size);
    ReadsFrame(SOH, 0, Block0(name, size));
  }

  lemma TakesBlock(h: Header, n: nat, data: seq<octet>, c: seq<octet>)
    requires 0 < |c| <= 1024
    ensures Take(Receiving(h, Number(n), data), DataFrame(Number(n), c)) == Receiving(h, Number(n + 1), data + Pad(c))
  {
    hide Frame, Read, ParseBlock0;
    ReadsFrame(if |c| <= 128 then SOH else STX, Number(n), Pad(c));
  }

  lemma TakesPlan(name: seq<octet>, size: u32, chunks: seq<seq<octet>>)
    requires IsName(name) && Sizes(chunks)
    ensures TakeAll(Waiting, Plan(name, size, chunks)) == Closed(Header(SentName(name), size), Padded(chunks))
  {
    hide Frame, DataFrames, Padded, ParseBlock0, Block0, TakeAll, Read;
    var ms := [Frame(SOH, 0, Block0(name, size))] + DataFrames(chunks);
    var null0 := Frame(SOH, 0, ZeroBytes(128));
    TakesData(name, size, chunks);
    ReadsFrame(SOH, 0, ZeroBytes(128));
    ReadsEot();
    TakeOne(Waiting, ms, [EOT]);
    TakeOne(Waiting, ms + [[EOT]], null0);
    assert Plan(name, size, chunks) == ms + [[EOT]] + [null0];
  }

  lemma TakeOne(r: Receiver, ms: seq<seq<octet>>, m: seq<octet>)
    ensures TakeAll(r, ms + [m]) == Take(TakeAll(r, ms), m)
  {
    assert (ms + [m])[..|ms|] == ms;
  }

  lemma ReadsEot()
    ensures Read([EOT]) == End
  {
  }

  /** Every complete session, however often each message was repeated, gives the receiver
      the name, the size and - before the padding - exactly the bytes sent. */
  lemma SessionRoundTrip(name: seq<octet>, size: u32, chunks: seq<seq<octet>>, counts: seq<nat>)
    requires IsName(name) && Sizes(chunks) && Full(chunks)
    requires |counts| == |Plan(name, size, chunks)| && forall c <- counts :: c >= 1
    ensures var r := TakeAll(Waiting, Expand(Plan(name, size, chunks), counts));
            r == Closed(Header(SentName(name), size), Padded(chunks)) && Flat(chunks) <= r.data
  {
    DropsRepeats(Waiting, Plan(name, size, chunks), counts);
    TakesPlan(name, size, chunks);
    PaddedExtends(chunks);
  }
}
