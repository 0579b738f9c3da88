/** What a YMODEM receiver sees of the sender of svc/ymodem.c, told by the bytes on the line:
    the name that arrives, the bytes of each transmission, and how the sender takes every
    stream of answers. */
module YmodemLaws {
  import opened Machine
  import opened Crc16
  import opened YmodemFormat
  import opened YmodemSender

  // ---- the header ------------------------------------------------------------------------

  /** A name of 1 to 100 bytes arrives unchanged, a longer one is cut to its first 100 bytes, and
      for no name at all "file.bin" arrives. */
  lemma NameArrives(name: seq<octet>, size: u32)
    requires IsName(name)
    ensures var header := ParseBlock0(Block0(name, size));
            && header.Some? && header.value.size == size
            && (1 <= |name| <= 100 ==> header.value.name == name)
            && (|name| > 100 ==> header.value.name == name[..100])
            && (name == [] ==> |header.value.name| == 8 && forall i :: 0 <= i < 8 ==> header.value.name[i] as int == "file.bin"[i] as int)
  {
    hide ParseBlock0, Block0;
    Block0RoundTrip(name, size);
    DefaultName();
  }

  lemma DefaultName()
    ensures |SentName([])| == 8 && forall i :: 0 <= i < 8 ==> SentName([])[i] as int == "file.bin"[i] as int
  {
    var n := SentName([]);
    assert n[0] as int == 0x66 && n[1] as int == 0x69 && n[2] as int == 0x6C && n[3] as int == 0x65;
    assert n[4] as int == 0x2E && n[5] as int == 0x62 && n[6] as int == 0x69 && n[7] as int == 0x6E;
  }

  // ---- the bytes of a transmission ---------------------------------------------------------

  lemma {:induction false} NumberIs(n: nat)
    ensures Number(n) as int == n % 256
  {
    hide Number;
    if n == 0 {
      NumberZero();
    } else {
      NumberIs(n - 1);
      NumberMore(n - 1);
      NextNumber(Number(n - 1));
      ModStep(n);
    }
  }

  lemma NumberZero()
    ensures Number(0) == 0
  {
  }

  lemma ModStep(n: nat)
    requires n > 0
    ensures ((n - 1) % 256 + 1) % 256 == n % 256
  {
  }

  lemma NextNumber(b: octet)
    ensures (b + 1) as int == (b as int + 1) % 256
  {
  }

  /** The head of data block @p n of a session: SOH and room for 128 data bytes for up to 128 bytes,
      STX and room for 1024 otherwise; the block number modulo 256 and its complement. */
  lemma DataBlockHead(n: nat, chunk: seq<octet>)
    requires |chunk| <= 1024
    ensures var f, small := DataFrame(Number(n), chunk), |chunk| <= 128;
            && |f| == (if small then 133 else 1029) && f[0] == (if small then 0x01 else 0x02)
            && f[1] as int == n % 256 && f[1] ^ f[2] == 0xFF
  {
    hide Crc, Number, Frame, Pad, Trailer, High, Low;
    NumberIs(n);
    Complement(Number(n));
    FrameParts(if |chunk| <= 128 then 0x01 else 0x02, Number(n), Pad(chunk));
  }

  /** The rest of it: the chunk, 0x1A behind it, and the CRC of both. */
  lemma DataBlockBody(number: octet, chunk: seq<octet>)
    requires |chunk| <= 1024
    ensures var f := DataFrame(number, chunk);
            && |f| == (if |chunk| <= 128 then 133 else 1029)
            && f[3..3 + |chunk|] == chunk && (forall i :: 3 + |chunk| <= i < |f| - 2 ==> f[i] == 0x1A)
            && f[|f| - 2..] == Trailer(Crc(f[3..|f| - 2]))
  {
    hide Crc, Frame, Pad, Trailer, High, Low;
    var f, data := DataFrame(number, chunk), Pad(chunk);
    FrameParts(if |chunk| <= 128 then 0x01 else 0x02, number, data);
    Inside(f, 3, |f| - 2, chunk);
    forall i | 3 + |chunk| <= i < |f| - 2 ensures f[i] == 0x1A { assert f[i] == data[i - 3]; }
  }

  lemma Inside(f: seq<octet>, from: nat, to: nat, part: seq<octet>)
    requires from <= to <= |f| && part <= f[from..to]
    ensures f[from..from + |part|] == part
  {
    assert f[from..from + |part|] == f[from..to][..|part|];
  }

  lemma FrameParts(kind: octet, number: octet, data: seq<octet>)
    ensures var f := Frame(kind, number, data);
            && |f| == |data| + 5 && f[0] == kind && f[1] == number && f[2] == !number
            && f[3..|f| - 2] == data && f[|f| - 2..] == Trailer(Crc(data))
  {
    hide Crc, High, Low;
  }

  /** The CRC goes out high byte first. */
  lemma TrailerBytes(c: bv16)
    ensures Trailer(c) == [(c >> 8) as octet, (c & 0xFF) as octet]
  {
  }

  /** The order of a complete session: the header, the data blocks numbered from 1, EOT, and a
      block of zeros that closes the batch. */
  lemma PlanInOrder(name: seq<octet>, size: u32, chunks: seq<seq<octet>>)
    requires Sizes(chunks)
    ensures var p, n := Plan(name, size, chunks), |chunks|;
            && |p| == n + 3 && p[n + 1] == [0x04]
            && Read(p[0]) == Block(0, Block0(name, size)) && |Block0(name, size)| == 128
            && (forall i :: 0 <= i < n ==> |chunks[i]| <= 1024 && p[i + 1] == DataFrame(Number(i + 1), chunks[i]))
            && Read(p[n + 2]) == Block(0, ZeroBytes(128))
  {
    hide Frame, DataFrame, Block0, Number, Read, Sizes;
    Block0Length(name, size);
    ReadsFrame(SOH, 0, Block0(name, size));
    ReadsFrame(SOH, 0, ZeroBytes(128));
    var p, n := Plan(name, size, chunks), |chunks|;
    assert p[0] == Frame(SOH, 0, Block0(name, size));
    assert Read(p[0]) == Block(0, Block0(name, size));
    assert p[n + 1] == [EOT] && p[n + 2] == Frame(SOH, 0, ZeroBytes(128));
    forall i | 0 <= i < n ensures |chunks[i]| <= 1024 && p[i + 1] == DataFrame(Number(i + 1), chunks[i]) {
      DataFrameAt(chunks, i);
      assert p[i + 1] == DataFrames(chunks)[i];
    }
  }

  lemma Block0Length(name: seq<octet>, size: u32)
    ensures |Block0(name, size)| == 128
  {
    DecimalShort(size);
  }

  lemma {:induction false} DataFrameAt(chunks: seq<seq<octet>>, i: nat)
    requires Sizes(chunks) && i < |chunks|
    ensures |chunks[i]| <= 1024 && DataFrames(chunks)[i] == DataFrame(Number(i + 1), chunks[i])
    decreases |chunks|
  {
    hide DataFrame, Number;
    assert chunks[i] in chunks;
    var k := |chunks| - 1;
    if i == k {
    } else {
      assert forall c <- chunks[..k] :: c in chunks;
      DataFrameAt(chunks[..k], i);
    }
  }

  // ---- the receiver's answers ----------------------------------------------------------------

  function Joined(us: seq<seq<int>>): seq<int> { if us == [] then [] else us[0] + Joined(us[1..]) }

  lemma JoinedStep(us: seq<seq<int>>)
    ensures Joined(us) == if us == [] then [] else us[0] + Joined(us[1..])
  {
  }

  /** An answer that asks for a repeat: one that is neither ACK nor a CAN nor the console's abort,
      or a lone CAN together with what comes after it. */
  predicate Again(u: seq<int>) {
    (|u| == 1 && u[0] != 0x06 && u[0] != 0x18 && u[0] != -2) || (|u| == 2 && u[0] == 0x18 && u[1] != 0x18)
  }

  predicate AllAgain(us: seq<seq<int>>) { forall i :: 0 <= i < |us| ==> Again(us[i]) }

  lemma Paired(a: seq<int>, b: seq<int>, c: seq<int>)
    ensures a + b + c == a + (b + c)
  {
  }

  lemma Grouped(a: seq<int>, b: seq<int>, c: seq<int>, d: seq<int>)
    ensures a + b + c + d == a + (b + c + d)
  {
  }

  lemma HearAgain(u: seq<int>, rest: seq<int>)
    requires Again(u)
    ensures Hear(u + rest) == (Other, rest)
  {
    assert (u + rest)[|u|..] == rest;
    assert |u| == 2 ==> (u + rest)[1..][1..] == rest;
  }

  lemma HearEnd(end: seq<int>, rest: seq<int>)
    requires end == [0x06] || end == [0x18, 0x18] || end == [-2]
    ensures Hear(end + rest) == (if end == [0x06] then Acked else Aborted, rest)
  {
    assert (end + rest)[|end|..] == rest;
    assert |end| == 2 ==> (end + rest)[1..][1..] == rest;
  }

  /** Up to ten answers that ask for a repeat, then an ACK: the message has gone out that often
      and once more, and the exchange succeeds. With two CANs in a row, or the abort, in place of
      the ACK it is cancelled there. */
  lemma {:induction false} ExchangeEnds(us: seq<seq<int>>, end: seq<int>, rest: seq<int>, sent: nat, attempts: nat)
    requires AllAgain(us) && attempts + |us| <= 10
    requires end == [0x06] || end == [0x18, 0x18] || end == [-2]
    ensures Exchange(Joined(us) + end + rest, sent, None, attempts) ==
            Reply(if end == [0x06] then Ok else Cancel, |us| + 1, rest)
    decreases |us|
  {
    hide Hear, Again, Exchange, Joined;
    JoinedStep(us);
    var input := Joined(us) + end + rest;
    ExchangeRound(input, sent, None, attempts);
    if us == [] {
      assert input == end + rest;
      HearEnd(end, rest);
    } else {
      Grouped(us[0], Joined(us[1..]), end, rest);
      HearAgain(us[0], Joined(us[1..]) + end + rest);
      ExchangeEnds(us[1..], end, rest, sent + 1, attempts + 1);
    }
  }

  /** Eleven answers that ask for a repeat end the exchange with a timeout. */
  lemma {:induction false} ExchangeGivesUp(us: seq<seq<int>>, rest: seq<int>, sent: nat, attempts: nat)
    requires AllAgain(us) && us != [] && attempts + |us| == 11
    ensures Exchange(Joined(us) + rest, sent, None, attempts) == Reply(Timeout, |us|, rest)
    decreases |us|
  {
    hide Hear, Again, Exchange, Joined;
    JoinedStep(us);
    var input := Joined(us) + rest;
    ExchangeRound(input, sent, None, attempts);
    Paired(us[0], Joined(us[1..]), rest);
    HearAgain(us[0], Joined(us[1..]) + rest);
    if |us| == 1 {
      JoinedStep(us[1..]);
      assert [] + rest == rest;
    } else {
      ExchangeGivesUp(us[1..], rest, sent + 1, attempts + 1);
    }
  }

  /** A put that fails ends the exchange there, with the answers of the puts before it used up. */
  lemma {:induction false} ExchangeFaults(us: seq<seq<int>>, rest: seq<int>, sent: nat, attempts: nat)
    requires AllAgain(us) && attempts + |us| <= 10
    ensures Exchange(Joined(us) + rest, sent, Some(sent + |us|), attempts) == Reply(IoError, |us| + 1, rest)
    decreases |us|
  {
    hide Hear, Again, Exchange, Joined;
    JoinedStep(us);
    var input := Joined(us) + rest;
    ExchangeRound(input, sent, Some(sent + |us|), attempts);
    if us == [] {
      assert input == rest;
    } else {
      Paired(us[0], Joined(us[1..]), rest);
      HearAgain(us[0], Joined(us[1..]) + rest);
      ExchangeFaults(us[1..], rest, sent + 1, attempts + 1);
    }
  }

  // ---- the wait for a 'C' -------------------------------------------------------------------

  /** What a wait for 'C' passes over: anything but a 'C', a CAN or the abort, or a lone CAN
      together with what comes after it. */
  predicate Passed(u: seq<int>) {
    (|u| == 1 && u[0] != 0x43 && u[0] != 0x18 && u[0] != -2) || (|u| == 2 && u[0] == 0x18 && u[1] != 0x18)
  }

  predicate AllPassed(us: seq<seq<int>>) { forall i :: 0 <= i < |us| ==> Passed(us[i]) }

  /** How often nothing came in time. */
  function Silences(us: seq<seq<int>>): nat { if us == [] then 0 else (if us[0] == [-1] then 1 else 0) + Silences(us[1..]) }

  lemma AwaitPassed(u: seq<int>, rest: seq<int>, timeouts: nat)
    requires Passed(u) && timeouts <= 10 && (u == [-1] ==> timeouts < 10)
    ensures Await(u + rest, timeouts) == Await(rest, timeouts + if u == [-1] then 1 else 0)
  {
    assert (u + rest)[|u|..] == rest;
    assert |u| == 2 ==> (u + rest)[1..][1..] == rest;
  }

  lemma AwaitEnd(end: seq<int>, rest: seq<int>, timeouts: nat)
    requires timeouts <= 10 && (end == [0x43] || end == [0x18, 0x18] || end == [-2])
    ensures Await(end + rest, timeouts) == (if end == [0x43] then Ok else Cancel, rest)
  {
    assert (end + rest)[|end|..] == rest;
    assert |end| == 2 ==> (end + rest)[1..][1..] == rest;
  }

  /** A 'C' is heeded after any number of other bytes and up to ten timeouts; two CANs in a row,
      or the abort, cancel the wait instead. */
  lemma {:induction false} AwaitEnds(us: seq<seq<int>>, end: seq<int>, rest: seq<int>, timeouts: nat)
    requires AllPassed(us) && timeouts + Silences(us) <= 10
    requires end == [0x43] || end == [0x18, 0x18] || end == [-2]
    ensures Await(Joined(us) + end + rest, timeouts) == (if end == [0x43] then Ok else Cancel, rest)
    decreases |us|
  {
    hide Await, Passed, Joined;
    JoinedStep(us);
    var input := Joined(us) + end + rest;
    if us == [] {
      assert input == end + rest;
      AwaitEnd(end, rest, timeouts);
    } else {
      Grouped(us[0], Joined(us[1..]), end, rest);
      AwaitPassed(us[0], Joined(us[1..]) + end + rest, timeouts);
      AwaitEnds(us[1..], end, rest, timeouts + if us[0] == [-1] then 1 else 0);
    }
  }

  /** The eleventh timeout ends it. */
  lemma {:induction false} AwaitGivesUp(us: seq<seq<int>>, rest: seq<int>, timeouts: nat)
    requires AllPassed(us) && timeouts + Silences(us) == 10
    ensures Await(Joined(us) + [-1] + rest, timeouts) == (Timeout, rest)
    decreases |us|
  {
    hide Passed, Await, Joined;
    JoinedStep(us);
    var input := Joined(us) + [-1] + rest;
    if us == [] {
      assert input == [-1] + rest;
      LastSilence(rest);
    } else {
      Grouped(us[0], Joined(us[1..]), [-1], rest);
      AwaitPassed(us[0], Joined(us[1..]) + [-1] + rest, timeouts);
      AwaitGivesUp(us[1..], rest, timeouts + if us[0] == [-1] then 1 else 0);
    }
  }

  lemma LastSilence(rest: seq<int>)
    ensures Await([-1] + rest, 10) == (Timeout, rest)
  {
    assert ([-1] + rest)[1..] == rest;
  }

  /** No more answers is silence: an exchange goes on to its last repeat, a wait to its last
      timeout. */
  lemma {:induction false} SilenceIsTimeouts(sent: nat, attempts: nat)
    requires attempts <= 10
    ensures Exchange([], sent, None, attempts) == Reply(Timeout, 11 - attempts, [])
    ensures Await([], attempts) == (Timeout, [])
    decreases 10 - attempts
  {
    if attempts == 10 {
    } else {
      SilenceIsTimeouts(sent + 1, attempts + 1);
    }
  }

  // ---- the source -----------------------------------------------------------------------------

  function Reads(ds: seq<seq<octet>>): (a: seq<Answered>)
    ensures |a| == |ds|
  {
    if ds == [] then [] else [Bytes(ds[0])] + Reads(ds[1..])
  }

  function Bytewise(ds: seq<seq<octet>>): seq<octet> { if ds == [] then [] else ds[0] + Bytewise(ds[1..]) }

  predicate NoneEmpty(ds: seq<seq<octet>>) { forall i :: 0 <= i < |ds| ==> ds[i] != [] }

  /** The reads of a block: what they give in turn, until the block is full, a read fails, or one
      gives nothing. */
  lemma {:induction false} BlockReads(ds: seq<seq<octet>>, tail: seq<Answered>, want: nat)
    requires NoneEmpty(ds) && |Bytewise(ds)| <= want
    ensures |Bytewise(ds)| == want ==> Gather(Reads(ds) + tail, want) == Filled(Bytewise(ds), false, tail)
    ensures |Bytewise(ds)| < want && tail == [] ==> Gather(Reads(ds) + tail, want) == Filled(Bytewise(ds), false, [])
    ensures |Bytewise(ds)| < want && tail != [] && tail[0] in {Fault, Bytes([])} ==>
              Gather(Reads(ds) + tail, want) == Filled(Bytewise(ds), tail[0] == Fault, tail[1..])
    decreases |ds|
  {
    var answers := Reads(ds) + tail;
    if ds == [] {
      assert answers == tail;
    } else {
      hide ReadOne, Gather;
      assert answers == [Bytes(ds[0])] + (Reads(ds[1..]) + tail);
      FirstRead(ds[0], Reads(ds[1..]) + tail, want);
      GatherOne([], answers, want);
      AfterNothing(Gather(answers, want));
      assert [] + ds[0] == ds[0];
      BlockReads(ds[1..], tail, want - |ds[0]|);
    }
  }

  lemma FirstRead(d: seq<octet>, rest: seq<Answered>, want: nat)
    requires 0 < |d| <= want
    ensures ReadOne([Bytes(d)] + rest, want) == Filled(d, false, rest)
  {
    assert ([Bytes(d)] + rest)[1..] == rest;
  }
}
