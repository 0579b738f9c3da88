/** The sender of svc/ymodem.c with its one block buffer filled in place, against an
    arbitrary receiver, transport and source: the receiver is a list of `getc` results
    (then silence), the transport may fail at any put, the source answers each read with
    a fault or with any bytes up to the number asked for. */
module YmodemSender {
  import opened Machine
  import opened Crc16
  import opened YmodemFormat
  import Numerals

  const TIMEOUT: int := -1
  const ABORT: int := -2
  const ACK: int := 0x06
  const CAN: int := 0x18
  const CRC_C: int := 0x43

  const RETRIES: nat := 10

  datatype Rc = Ok | Cancel | Timeout | SourceError | IoError

  // ---- the receiver's answers ------------------------------------------------------

  datatype Heard = Acked | Aborted | Other

  function First(input: seq<int>): int { if input == [] then TIMEOUT else input[0] }

  function Rest(input: seq<int>): seq<int> { if input == [] then [] else input[1..] }

  /** One answer: a CAN needs a second CAN to cancel, and takes the next byte with it. */
  function Hear(input: seq<int>): (Heard, seq<int>) {
    var b, rest := First(input), Rest(input);
    if b == ACK then (Acked, rest)
    else if b == ABORT then (Aborted, rest)
    else if b == CAN then (if First(rest) == CAN then Aborted else Other, Rest(rest))
    else (Other, rest)
  }

  datatype Reply = Reply(rc: Rc, n: nat, rest: seq<int>)

  /** Send one message until it is acknowledged, @p sent puts into the session. */
  function Exchange(input: seq<int>, sent: nat, fault: Option<nat>, attempts: nat): (r: Reply)
    requires attempts <= RETRIES
    ensures 1 <= r.n <= RETRIES + 1 - attempts && r.rc != SourceError
    decreases RETRIES - attempts
  {
    if fault == Some(sent) then Reply(IoError, 1, input)
    else
      var (h, rest) := Hear(input);
      match h
      case Acked => Reply(Ok, 1, rest)
      case Aborted => Reply(Cancel, 1, rest)
      case Other =>
        if attempts + 1 > RETRIES then Reply(Timeout, 1, rest)
        else var r := Exchange(rest, sent + 1, fault, attempts + 1); r.(n := r.n + 1)
  }

  /** The @p k-th answer is the first that does not call for a repeat, and acknowledges. */
  predicate AckedAt(input: seq<int>, k: nat)
    decreases k
  {
    var (h, rest) := Hear(input);
    if k == 0 then h == Acked else h == Other && AckedAt(rest, k - 1)
  }

  /** An exchange succeeds exactly if an answer within the retries is an acknowledgement,
      every earlier one calls for a repeat, and no put up to it fails; the message has then
      gone out that many times. */
  lemma {:induction false} ExchangeOk(input: seq<int>, sent: nat, fault: Option<nat>, attempts: nat, k: nat)
    requires attempts <= RETRIES
    ensures var r := Exchange(input, sent, fault, attempts);
            r.rc == Ok && r.n == k + 1 <==>
              && k <= RETRIES - attempts && AckedAt(input, k)
              && (fault.Some? ==> fault.value < sent || fault.value > sent + k)
    decreases RETRIES - attempts
  {
    hide Hear, Exchange;
    ExchangeRound(input, sent, fault, attempts);
    var rest := Hear(input).1;
    if attempts == RETRIES || k == 0 {
    } else {
      ExchangeOk(rest, sent + 1, fault, attempts + 1, k - 1);
    }
  }

  /** Wait for a 'C': anything else but a cancel is swallowed, silence is counted. */
  function Await(input: seq<int>, timeouts: nat): (Rc, seq<int>)
    requires timeouts <= RETRIES
    decreases |input|, RETRIES - timeouts
  {
    var b, rest := First(input), Rest(input);
    if b == CRC_C then (Ok, rest)
    else if b == ABORT then (Cancel, rest)
    else if b == CAN then (if First(rest) == CAN then (Cancel, Rest(rest)) else Await(Rest(rest), timeouts))
    else if b == TIMEOUT then (if timeouts + 1 > RETRIES then (Timeout, rest) else Await(rest, timeouts + 1))
    else Await(rest, timeouts)
  }

  // ---- the source --------------------------------------------------------------------

  datatype Answered = Fault | Bytes(data: seq<octet>)

  /** What the reads of one block give: the bytes, whether a read failed, and the answers
      left. */
  datatype Filled = Filled(data: seq<octet>, failed: bool, rest: seq<Answered>)

  /** One read asking for @p want bytes; no answers left is end of file. */
  function ReadOne(answers: seq<Answered>, want: nat): (f: Filled)
    ensures |f.data| <= want && (f.data != [] ==> |f.rest| < |answers|) && (f.failed ==> f.data == [])
  {
    if answers == [] then Filled([], false, [])
    else
      match answers[0]
      case Fault => Filled([], true, answers[1..])
      case Bytes(d) => Filled(if |d| <= want then d else d[..want], false, answers[1..])
  }

  function After(pre: seq<octet>, f: Filled): Filled { f.(data := pre + f.data) }

  /** Reads until @p want bytes are there, a read fails or one gives nothing. */
  function Gather(answers: seq<Answered>, want: nat): (f: Filled)
    ensures |f.data| <= want
    decreases |answers|
  {
    if want == 0 then Filled([], false, answers)
    else
      var one := ReadOne(answers, want);
      if one.data == [] then one else After(one.data, Gather(one.rest, want - |one.data|))
  }

  lemma AfterNothing(f: Filled)
    ensures After([], f) == f
  {
    assert [] + f.data == f.data;
  }

  lemma GatherFull(pre: seq<octet>, answers: seq<Answered>)
    ensures After(pre, Gather(answers, 0)) == Filled(pre, false, answers)
  {
    assert pre + [] == pre;
  }

  lemma Regroup(a: seq<octet>, b: seq<octet>, c: seq<octet>)
    ensures (a + b) + c == a + (b + c) && (c == [] ==> b + c == b)
  {
  }

  lemma GatherOne(pre: seq<octet>, answers: seq<Answered>, want: nat)
    requires want > 0
    ensures var one := ReadOne(answers, want);
            After(pre, Gather(answers, want)) ==
            if one.data == [] then Filled(pre, one.failed, one.rest)
            else After(pre + one.data, Gather(one.rest, want - |one.data|))
  {
    hide ReadOne;
    var one := ReadOne(answers, want);
    assert pre + [] == pre;
    if one.data != [] {
      var rest := Gather(one.rest, want - |one.data|).data;
      assert (pre + one.data) + rest == pre + (one.data + rest);
    }
  }

  // ---- the trace -------------------------------------------------------------------

  /** What a session has put on the wire: a prefix of the plan for the chunks read so far,
      each message repeated 1 to 11 times in a row. */
  ghost predicate Wire(puts: seq<seq<octet>>, name: seq<octet>, size: u32, chunks: seq<seq<octet>>,
                       ms: seq<seq<octet>>, counts: seq<nat>) {
    && Sizes(chunks) && Full(chunks)
    && ms <= Plan(name, size, chunks) && |counts| == |ms|
    && (forall i :: 0 <= i < |counts| ==> 1 <= counts[i] <= RETRIES + 1)
    && puts == Expand(ms, counts)
  }

  /** Block 0 and the data blocks. */
  function Body(name: seq<octet>, size: u32, chunks: seq<seq<octet>>): (b: seq<seq<octet>>)
    requires Sizes(chunks)
    ensures |b| == |chunks| + 1
  {
    [Frame(SOH, 0, Block0(name, size))] + DataFrames(chunks)
  }

  lemma WireMore(puts: seq<seq<octet>>, name: seq<octet>, size: u32, chunks: seq<seq<octet>>,
                 ms: seq<seq<octet>>, counts: seq<nat>, m: seq<octet>, n: nat)
    requires Wire(puts, name, size, chunks, ms, counts)
    requires ms + [m] <= Plan(name, size, chunks) && 1 <= n <= RETRIES + 1
    ensures Wire(puts + Rep(m, n), name, size, chunks, ms + [m], counts + [n])
  {
    hide Plan, Sizes, Full;
    assert (ms + [m])[..|ms|] == ms && (counts + [n])[..|counts|] == counts;
  }

  lemma PlanShape(name: seq<octet>, size: u32, chunks: seq<seq<octet>>)
    requires Sizes(chunks)
    ensures var b := Body(name, size, chunks); var p := Plan(name, size, chunks);
            && p == b + [[EOT], Frame(SOH, 0, ZeroBytes(128))]
            && b <= p && b + [[EOT]] <= p && (b + [[EOT]]) + [Frame(SOH, 0, ZeroBytes(128))] == p
  {
    hide Frame, DataFrames;
  }

  predicate AllFull(chunks: seq<seq<octet>>) { forall i :: 0 <= i < |chunks| ==> |chunks[i]| == 1024 }

  lemma SizesMore(chunks: seq<seq<octet>>, c: seq<octet>)
    requires Sizes(chunks) && AllFull(chunks) && 0 < |c| <= 1024
    ensures Sizes(chunks + [c]) && Full(chunks + [c]) && (|c| == 1024 ==> AllFull(chunks + [c]))
  {
    forall d | d in chunks + [c] ensures 0 < |d| <= 1024 { assert d in chunks || d == c; }
  }

  lemma FlatMore(chunks: seq<seq<octet>>, c: seq<octet>)
    ensures Flat(chunks + [c]) == Flat(chunks) + c
  {
    assert (chunks + [c])[..|chunks|] == chunks;
  }

  /** A further chunk extends the plan. */
  lemma BodyMore(name: seq<octet>, size: u32, chunks: seq<seq<octet>>, c: seq<octet>)
    requires Sizes(chunks) && Sizes(chunks + [c]) && 0 < |c| <= 1024
    ensures Body(name, size, chunks + [c]) == Body(name, size, chunks) + [DataFrame(Number(|chunks| + 1), c)]
  {
    hide Frame, DataFrame, Pad, Block0, Number, Sizes;
    var more := chunks + [c];
    assert more[..|more| - 1] == chunks && more[|more| - 1] == c;
    assert DataFrames(more) == DataFrames(chunks) + [DataFrame(Number(|more|), c)];
  }

  /** The data phase: block 0 and one frame per chunk have been put, in order. */
  ghost predicate InData(puts: seq<seq<octet>>, name: seq<octet>, size: u32, chunks: seq<seq<octet>>, counts: seq<nat>) {
    Sizes(chunks) && Wire(puts, name, size, chunks, Body(name, size, chunks), counts)
  }

  lemma BlockSent(puts: seq<seq<octet>>, name: seq<octet>, size: u32, chunks: seq<seq<octet>>, counts: seq<nat>,
                  c: seq<octet>, n: nat)
    requires InData(puts, name, size, chunks, counts) && AllFull(chunks) && 0 < |c| <= 1024 && 1 <= n <= RETRIES + 1
    ensures InData(puts + Rep(DataFrame(Number(|chunks| + 1), c), n), name, size, chunks + [c], counts + [n])
    ensures Sizes(chunks + [c]) && Flat(chunks + [c]) == Flat(chunks) + c && (|c| == 1024 ==> AllFull(chunks + [c]))
  {
    hide Frame, DataFrame, Block0, Body, Plan, Expand, Flat, Sizes, Full, AllFull;
    SizesMore(chunks, c);
    FlatMore(chunks, c);
    BodyMore(name, size, chunks, c);
    var b, more := Body(name, size, chunks), Body(name, size, chunks + [c]);
    PlanShape(name, size, chunks + [c]);
    assert b <= more;
    WireMore(puts, name, size, chunks + [c], b, counts, DataFrame(Number(|chunks| + 1), c), n);
  }

  // ---- the course of a session ----------------------------------------------------------

  /** What is left of the receiver's answers and of the source's, and the puts so far. */
  datatype Link = Link(input: seq<int>, sent: nat, answers: seq<Answered>)

  function Exchanged(l: Link, fault: Option<nat>): (Rc, Link) {
    var r := Exchange(l.input, l.sent, fault, 0);
    (r.rc, l.(input := r.rest, sent := l.sent + r.n))
  }

  function Called(l: Link): (Rc, Link) {
    var (rc, rest) := Await(l.input, 0);
    (rc, l.(input := rest))
  }

  /** The data phase with @p remaining bytes to go. */
  function DataPhase(l: Link, fault: Option<nat>, remaining: nat): (Rc, Link)
    decreases remaining
  {
    if remaining == 0 then (Ok, l)
    else
      var want := if remaining < 1024 then remaining else 1024;
      var f := Gather(l.answers, want);
      var l1 := l.(answers := f.rest);
      if f.failed then (SourceError, l1)
      else if f.data == [] then (Ok, l1)
      else
        var (rc, l2) := Exchanged(l1, fault);
        if rc != Ok || |f.data| < want then (rc, l2) else DataPhase(l2, fault, remaining - |f.data|)
  }

  /** From EOT to the end of the batch. */
  function Closing(l: Link, fault: Option<nat>): (Rc, Link) {
    var (rc, l1) := Exchanged(l, fault);
    if rc != Ok then (rc, l1)
    else
      var (rc2, l2) := Called(l1);
      if rc2 != Ok then (rc2, l2) else Exchanged(l2, fault)
  }

  /** From the first 'C' to the call for data. */
  function Opening(l: Link, fault: Option<nat>): (Rc, Link) {
    var (rc, l1) := Called(l);
    if rc != Ok then (rc, l1)
    else
      var (rc2, l2) := Exchanged(l1, fault);
      if rc2 != Ok then (rc2, l2) else Called(l2)
  }

  /** How a session goes, given what receiver, transport and source will do. */
  function Session(l: Link, fault: Option<nat>, size: nat): (Rc, Link) {
    var (rc, l1) := Opening(l, fault);
    if rc != Ok then (rc, l1)
    else
      var (rc2, l2) := DataPhase(l1, fault, size);
      if rc2 != Ok then (rc2, l2) else Closing(l2, fault)
  }

  /** One round of the data phase. */
  lemma DataRound(l: Link, fault: Option<nat>, remaining: nat)
    requires remaining > 0
    ensures var want := Min(remaining, 1024);
            var f := Gather(l.answers, want);
            var l1 := l.(answers := f.rest);
            var (rc, l2) := Exchanged(l1, fault);
            DataPhase(l, fault, remaining) ==
            if f.failed then (SourceError, l1)
            else if f.data == [] then (Ok, l1)
            else if rc != Ok || |f.data| < want then (rc, l2)
            else DataPhase(l2, fault, remaining - |f.data|)
  {
    hide Gather, Exchanged;
  }

  lemma NoData(l: Link, fault: Option<nat>)
    ensures DataPhase(l, fault, 0) == (Ok, l)
  {
  }

  predicate Stray(b: int) { b != CRC_C && b != ABORT && b != CAN && b != TIMEOUT }

  /** Any number of stray bytes before the 'C' changes nothing. */
  lemma {:induction false} AwaitIgnoresStrays(strays: seq<int>, input: seq<int>, timeouts: nat)
    requires timeouts <= RETRIES && forall i :: 0 <= i < |strays| ==> Stray(strays[i])
    ensures Await(strays + input, timeouts) == Await(input, timeouts)
    decreases |strays|
  {
    if strays == [] {
      assert strays + input == input;
    } else {
      assert (strays + input)[1..] == strays[1..] + input;
      AwaitIgnoresStrays(strays[1..], input, timeouts);
    }
  }

  /** A 'C' after @p n timeouts is heeded exactly if the eleventh timeout has not passed. */
  lemma {:induction false} AwaitCountsTimeouts(n: nat, input: seq<int>, timeouts: nat)
    requires timeouts <= RETRIES && input != [] && input[0] == CRC_C
    ensures Await(seq(n, _ => TIMEOUT) + input, timeouts).0 == (if timeouts + n <= RETRIES then Ok else Timeout)
    decreases n
  {
    var all := seq(n, _ => TIMEOUT) + input;
    if n > 0 {
      assert all[1..] == seq(n - 1, _ => TIMEOUT) + input;
      if timeouts < RETRIES { AwaitCountsTimeouts(n - 1, input, timeouts + 1); }
    } else {
      assert all == input;
    }
  }

  /** Chunks that a source with @p remaining bytes gives, block by block. */
  predicate Supplies(chunks: seq<seq<octet>>, remaining: nat)
    decreases |chunks|
  {
    if chunks == [] then remaining == 0
    else 0 < |chunks[0]| == Min(remaining, 1024) && Supplies(chunks[1..], remaining - |chunks[0]|)
  }

  function Answers(chunks: seq<seq<octet>>): (a: seq<Answered>)
    ensures |a| == |chunks|
  {
    seq(|chunks|, i requires 0 <= i < |chunks| => Bytes(chunks[i]))
  }

  function Acks(n: nat): (a: seq<int>)
    ensures |a| == n
  {
    seq(n, _ => ACK)
  }

  lemma {:induction false} DataSucceeds(chunks: seq<seq<octet>>, after: seq<int>, sent: nat, remaining: nat)
    requires Supplies(chunks, remaining)
    ensures DataPhase(Link(Acks(|chunks|) + after, sent, Answers(chunks)), None, remaining) ==
            (Ok, Link(after, sent + |chunks|, []))
    decreases |chunks|
  {
    hide Gather, Exchanged;
    var input, answers := Acks(|chunks|) + after, Answers(chunks);
    if chunks == [] {
      assert input == after && answers == [];
    } else {
      var c := chunks[0];
      var want := Min(remaining, 1024);
      assert answers[1..] == Answers(chunks[1..]);
      assert input[0] == ACK && input[1..] == Acks(|chunks| - 1) + after;
      OneRead(c, answers, want);
      DataRound(Link(input, sent, answers), None, remaining);
      AckedNow(Link(input, sent, answers[1..]));
      DataSucceeds(chunks[1..], after, sent + 1, remaining - |c|);
    }
  }

  lemma OneRead(c: seq<octet>, answers: seq<Answered>, want: nat)
    requires answers != [] && answers[0] == Bytes(c) && |c| == want > 0
    ensures Gather(answers, want) == Filled(c, false, answers[1..])
  {
    assert Gather(answers[1..], 0) == Filled([], false, answers[1..]);
    assert c + [] == c;
  }

  lemma CalledNow(l: Link)
    requires l.input != [] && l.input[0] == CRC_C
    ensures Called(l) == (Ok, l.(input := l.input[1..]))
  {
  }

  lemma AckedNow(l: Link)
    requires l.input != [] && l.input[0] == ACK
    ensures Exchanged(l, None) == (Ok, l.(input := l.input[1..], sent := l.sent + 1))
  {
  }

  /** A receiver that calls and acknowledges at once, with a transport that works and a
      source that gives its bytes, is served: N + 3 puts and success. */
  lemma ObligingSucceeds(chunks: seq<seq<octet>>, size: nat)
    requires Supplies(chunks, size)
    ensures Session(Link([CRC_C, ACK, CRC_C] + (Acks(|chunks|) + [ACK, CRC_C, ACK]), 0, Answers(chunks)), None, size) ==
            (Ok, Link([], |chunks| + 3, []))
  {
    hide Acks, Answers, DataPhase, Closing, Called, Exchanged, Supplies;
    var tail := [ACK, CRC_C, ACK];
    var mid := Acks(|chunks|) + tail;
    var l := Link([CRC_C, ACK, CRC_C] + mid, 0, Answers(chunks));
    assert l.input[1..] == [ACK, CRC_C] + mid && ([ACK, CRC_C] + mid)[1..] == [CRC_C] + mid && ([CRC_C] + mid)[1..] == mid;
    CalledNow(l);
    var l1 := l.(input := [ACK, CRC_C] + mid);
    AckedNow(l1);
    CalledNow(l1.(input := [CRC_C] + mid, sent := 1));
    DataSucceeds(chunks, tail, 1, size);
    ClosingSucceeds(|chunks| + 1);
  }

  lemma ClosingSucceeds(sent: nat)
    ensures Closing(Link([ACK, CRC_C, ACK], sent, []), None) == (Ok, Link([], sent + 2, []))
  {
    hide Called, Exchanged;
    assert [ACK, CRC_C, ACK][1..] == [CRC_C, ACK] && [CRC_C, ACK][1..] == [ACK] && [ACK][1..] == [];
    AckedNow(Link([ACK, CRC_C, ACK], sent, []));
    CalledNow(Link([CRC_C, ACK], sent + 1, []));
    AckedNow(Link([ACK], sent + 1, []));
  }

  class Sender {
    const block: array<octet>
    const fault: Option<nat>
    var input: seq<int>
    var answers: seq<Answered>
    var puts: seq<seq<octet>>
    /** Every byte the source has handed out. */
    ghost var delivered: seq<octet>

    ghost predicate Valid()
      reads this
    {
      block.Length == 1029
    }

    ghost function State(): Link
      reads this
    {
      Link(input, |puts|, answers)
    }

    constructor (receiver: seq<int>, source: seq<Answered>, failing: Option<nat>)
      ensures Valid() && fresh(block) && fault == failing && State() == Link(receiver, 0, source)
      ensures puts == [] && delivered == []
    {
      block := new octet[1029];
      fault, input, answers, puts, delivered := failing, receiver, source, [], [];
    }

    method Put(data: seq<octet>) returns (ok: bool)
      modifies `puts
      ensures puts == old(puts) + [data] && ok == (fault != Some(|old(puts)|))
    {
      ok := fault != Some(|puts|);
      puts := puts + [data];
    }

    method Getc() returns (b: int)
      modifies `input
      ensures b == First(old(input)) && input == Rest(old(input))
    {
      if input == [] { return TIMEOUT; }
      b := input[0];
      input := input[1..];
    }

    /** `ymodem_crc16` over the data of the block buffer. */
    method BlockCrc(n: nat) returns (crc: bv16)
      requires Valid() && n <= 1024
      ensures crc == Crc(block[3..3 + n])
    {
      crc := 0;
      var i := 0;
      while i < n
        invariant i <= n && Crc(block[3..3 + n]) == Fold(crc, block[3 + i..3 + n])
      {
        hide Xor, TN;
        ghost var s := block[3 + i..3 + n];
        assert s[0] == block[3 + i] && s[1..] == block[3 + i + 1..3 + n];
        var c := Xor(crc, AtTop(block[3 + i]));
        var b := 0;
        while b < 8
          invariant b <= 8 && TN(Xor(crc, AtTop(block[3 + i])), 8) == TN(c, 8 - b)
        {
          TNOnce(c, 8 - b);
          c := T(c);
          b := b + 1;
        }
        TNZero(c);
        crc := c;
        i := i + 1;
      }
      assert block[3 + n..3 + n] == [];
    }

    /** The retry loop of `send_block` and `send_eot`. */
    method Deliver(message: seq<octet>) returns (rc: Rc, ghost count: nat)
      modifies `puts, `input
      ensures var r := Exchange(old(input), |old(puts)|, fault, 0);
              rc == r.rc && count == r.n && input == r.rest
      ensures puts == old(puts) + Rep(message, count)
    {
      hide Hear, Exchange, Rep;
      var attempts := 0;
      count := 0;
      NoRepeats(message, puts);
      while true
        invariant attempts == count <= RETRIES && puts == old(puts) + Rep(message, count)
        invariant var r := Exchange(input, |puts|, fault, attempts);
                  Exchange(old(input), |old(puts)|, fault, 0) == r.(n := r.n + count)
        decreases RETRIES - attempts
      {
        RepMore(message, old(puts), count);
        ExchangeRound(input, |puts|, fault, attempts);
        var ok := Put(message);
        count := count + 1;
        if !ok { return IoError, count; }
        var h := Listen();
        match h {
          case Acked => return Ok, count;
          case Aborted => return Cancel, count;
          case Other =>
            attempts := attempts + 1;
            if attempts > RETRIES { return Timeout, count; }
        }
      }
    }

    /** Send what is in the block buffer as one block, until acknowledged. */
    method SendBlock(kind: octet, number: octet, n: nat) returns (rc: Rc, ghost count: nat)
      requires Valid() && n <= 1024
      modifies block, `puts, `input
      ensures var r := Exchange(old(input), |old(puts)|, fault, 0);
              rc == r.rc && count == r.n && input == r.rest
      ensures puts == old(puts) + Rep(Frame(kind, number, old(block[3..3 + n])), count)
    {
      hide Frame, Exchange;
      var crc := BlockCrc(n);
      var message := Assemble(kind, number, n, crc);
      rc, count := Deliver(message);
    }

    /** The EOT handshake. */
    method SendEot() returns (rc: Rc, ghost count: nat)
      modifies `puts, `input
      ensures var r := Exchange(old(input), |old(puts)|, fault, 0);
              rc == r.rc && count == r.n && input == r.rest
      ensures puts == old(puts) + Rep([EOT], count)
    {
      rc, count := Deliver([EOT]);
    }

    /** The framing bytes around the data in the buffer. */
    method Assemble(kind: octet, number: octet, n: nat, crc: bv16) returns (message: seq<octet>)
      requires Valid() && n <= 1024 && crc == Crc(block[3..3 + n])
      modifies block
      ensures message == block[..n + 5] == Frame(kind, number, old(block[3..3 + n]))
    {
      hide Crc, High, Low;
      block[0], block[1], block[2] := kind, number, !number;
      block[3 + n], block[4 + n] := High(crc), Low(crc);
      message := block[..n + 5];
      assert block[3..3 + n] == old(block[3..3 + n]);
      assert block[..3] == [kind, number, !number] && block[3 + n..n + 5] == Trailer(crc);
      assert message == block[..3] + block[3..3 + n] + block[3 + n..n + 5];
    }

    /** One answer of the receiver, as every exchange reads it. */
    method Listen() returns (h: Heard)
      modifies `input
      ensures (h, input) == Hear(old(input))
    {
      var b := Getc();
      if b == ACK { return Acked; }
      if b == ABORT { return Aborted; }
      if b == CAN {
        var again := Getc();
        if again == CAN { return Aborted; }
      }
      h := Other;
    }

    /** `wait_start` and `wait_c`. */
    method WaitC() returns (rc: Rc)
      modifies `input
      ensures (rc, input) == Await(old(input), 0)
    {
      var timeouts := 0;
      while true
        invariant timeouts <= RETRIES && Await(old(input), 0) == Await(input, timeouts)
        decreases |input|, RETRIES - timeouts
      {
        var b := Getc();
        if b == CRC_C { return Ok; }
        if b == ABORT { return Cancel; }
        if b == CAN {
          var again := Getc();
          if again == CAN { return Cancel; }
        } else if b == TIMEOUT {
          timeouts := timeouts + 1;
          if timeouts > RETRIES { return Timeout; }
        }
      }
    }

    /** `u32_to_dec`. */
    static method DecimalArray(v: u32) returns (out: array<octet>)
      ensures fresh(out) && out[..] == Decimal(v)
    {
      DecimalShort(v);
      var tmp := new nat[10];
      var n := Numerals.Peel(v, 10, tmp);
      ghost var low, d := tmp[..n], Decimal(v);
      out := new octet[n];
      var i := 0;
      while i < n
        invariant i <= n && tmp[..n] == low && out[..i] == d[..i]
      {
        DigitFromBack(v, low, i);
        assert tmp[n - 1 - i] == low[n - 1 - i];
        out[i] := DigitByte(tmp[n - 1 - i]);
        assert out[..i + 1] == out[..i] + [out[i]];
        i := i + 1;
      }
      assert out[..] == out[..n] && d[..n] == d;
    }

    static lemma DigitFromBack(v: u32, low: seq<nat>, i: nat)
      requires Numerals.Backwards(low) == Numerals.Digits(v, 10) && i < |low|
      ensures |Decimal(v)| == |low| && low[|low| - 1 - i] < 10 && Decimal(v)[i] == DigitByte(low[|low| - 1 - i])
    {
      assert low[|low| - 1 - i] == Numerals.Backwards(low)[i];
    }

    method Memset(n: nat)
      requires Valid() && n <= 1024
      modifies block
      ensures block[3..3 + n] == ZeroBytes(n)
    {
      forall j | 3 <= j < 3 + n { block[j] := 0; }
    }

    /** `build_block0`. */
    method BuildBlock0(name: seq<octet>, size: u32)
      requires Valid() && IsName(name)
      modifies block
      ensures block[3..131] == Block0(name, size)
    {
      hide Decimal, SentName;
      Memset(128);
      var i := PutName(name);
      PutSize(i, size, SentName(name) + [0]);
      BlockParts(name, size);
    }

    /** The name and its NUL at the front of a block of zeros. */
    method PutName(name: seq<octet>) returns (i: nat)
      requires Valid() && IsName(name) && block[3..131] == ZeroBytes(128)
      modifies block
      ensures i == |SentName(name)| + 1 <= 101 && block[3..131] == SentName(name) + [0] + ZeroBytes(128 - i)
    {
      var n := if name == [] then DEFAULT_NAME else name;
      ghost var sent := SentName(name);
      i := 0;
      while i < |n| && i < 100
        invariant i <= |sent| && block[3..131] == sent[..i] + ZeroBytes(128 - i)
      {
        ghost var was := block[3..131];
        block[3 + i] := n[i];
        assert block[3..131] == was[i := n[i]];
        i := i + 1;
      }
      assert sent[..i] == sent;
      block[3 + i] := 0;
      i := i + 1;
      assert block[3..131] == sent + [0] + ZeroBytes(128 - i);
    }

    /** The size in decimal behind what is there. */
    method PutSize(at: nat, size: u32, ghost front: seq<octet>)
      requires Valid() && at == |front| <= 101 && block[3..131] == front + ZeroBytes(128 - at)
      modifies block
      ensures at + |Decimal(size)| <= 128
      ensures block[3..131] == front + Decimal(size) + ZeroBytes(128 - at - |Decimal(size)|)
    {
      hide Decimal;
      DecimalShort(size);
      var num := DecimalArray(size);
      ghost var d := num[..];
      var i, k := at, 0;
      while k < num.Length && i < 127
        invariant k <= num.Length && num[..] == d == Decimal(size) && i == at + k
        invariant block[3..131] == front + d[..k] + ZeroBytes(128 - i)
      {
        ghost var was := block[3..131];
        block[3 + i] := num[k];
        assert block[3..131] == was[i := d[k]];
        i := i + 1;
        k := k + 1;
      }
      assert d[..k] == d;
    }

    static lemma BlockParts(name: seq<octet>, size: u32)
      ensures |SentName(name)| + 1 + |Decimal(size)| <= 128
      ensures Block0(name, size) ==
              SentName(name) + [0] + Decimal(size) + ZeroBytes(128 - (|SentName(name)| + 1) - |Decimal(size)|)
    {
      hide Decimal, SentName;
      DecimalShort(size);
    }

    /** Bytes into the data of the block buffer, at @p at. */
    method CopyIn(at: nat, data: seq<octet>)
      requires Valid() && at + |data| <= 1024
      modifies block
      ensures block[3 + at..3 + at + |data|] == data
      ensures block[3..3 + at + |data|] == old(block[3..3 + at]) + data
    {
      forall j | 3 + at <= j < 3 + at + |data| { block[j] := data[j - 3 - at]; }
      assert block[3 + at..3 + at + |data|] == data;
      assert block[3..3 + at + |data|] == block[3..3 + at] + block[3 + at..3 + at + |data|];
    }

    /** One `read` of the source into the data of the block buffer, at @p at. */
    method ReadSource(at: nat, want: nat) returns (ok: bool, got: nat)
      requires Valid() && at + want <= 1024 && want > 0
      modifies block, `answers, `delivered
      ensures got <= want && ReadOne(old(answers), want) == Filled(block[3 + at..3 + at + got], !ok, answers)
      ensures block[3..3 + at + got] == old(block[3..3 + at]) + block[3 + at..3 + at + got]
      ensures delivered == old(delivered) + block[3 + at..3 + at + got]
    {
      got, ok := 0, true;
      if answers == [] { return; }
      var a := answers[0];
      answers := answers[1..];
      match a {
        case Fault => ok := false;
        case Bytes(d) =>
          var taken := if |d| <= want then d else d[..want];
          got := |taken|;
          CopyIn(at, taken);
          delivered := delivered + taken;
      }
    }

    /** A read behind the bytes @p pre that are already there. */
    method ReadMore(at: nat, want: nat, ghost pre: seq<octet>) returns (ok: bool, got: nat, ghost more: seq<octet>)
      requires Valid() && at + want <= 1024 && want > 0 && block[3..3 + at] == pre
      modifies block, `answers, `delivered
      ensures got == |more| <= want && (!ok ==> got == 0) && ReadOne(old(answers), want) == Filled(more, !ok, answers)
      ensures block[3..3 + at + got] == pre + more && delivered == old(delivered) + more
    {
      ok, got := ReadSource(at, want);
      more := block[3 + at..3 + at + got];
    }

    /** Fill the block buffer with up to @p want bytes of the source. */
    method Fill(want: nat) returns (ok: bool, filled: nat)
      requires Valid() && want <= 1024
      modifies block, `answers, `delivered
      ensures filled <= want
      ensures Gather(old(answers), want) == Filled(block[3..3 + filled], !ok, answers)
      ensures delivered == old(delivered) + block[3..3 + filled]
    {
      hide Gather, After, ReadOne;
      filled := 0;
      AfterNothing(Gather(answers, want));
      ghost var pre: seq<octet> := [];
      while filled < want
        invariant filled <= want && block[3..3 + filled] == pre && delivered == old(delivered) + pre
        invariant Gather(old(answers), want) == After(pre, Gather(answers, want - filled))
        decreases want - filled
      {
        GatherOne(pre, answers, want - filled);
        var fine, got, more := ReadMore(filled, want - filled, pre);
        Regroup(old(delivered), pre, more);
        if !fine || got == 0 { return fine, filled; }
        filled, pre := filled + got, pre + more;
      }
      GatherFull(pre, answers);
      ok := true;
    }

    /** The padding of a short block; the resulting data is the padded chunk. */
    method PadBlock(filled: nat) returns (n: nat)
      requires Valid() && 0 < filled <= 1024
      modifies block
      ensures n <= 1024 && block[3..3 + n] == Pad(old(block[3..3 + filled]))
    {
      n := if filled <= 128 then 128 else 1024;
      ghost var d := Pad(block[3..3 + filled]);
      var i := filled;
      while i < n
        invariant filled <= i <= n && forall j :: 3 <= j < 3 + i ==> block[j] == d[j - 3]
      {
        block[3 + i] := PADDING;
        i := i + 1;
      }
    }

    /** Read, pad and send one data block; nothing is sent when a read fails (and @p rc is
        SourceError) or no byte comes. */
    method SendChunk(number: octet, want: nat) returns (rc: Rc, filled: nat, ghost c: seq<octet>, ghost n: nat)
      requires Valid() && 0 < want <= 1024
      modifies this, block
      ensures old(delivered) <= delivered && filled <= want && 1 <= n <= RETRIES + 1
      ensures rc == SourceError || filled == 0 ==> puts == old(puts)
      ensures rc != SourceError && filled == 0 ==> rc == Ok && delivered == old(delivered)
      ensures rc != SourceError && filled > 0 ==>
                && |c| == filled && delivered == old(delivered) + c
                && puts == old(puts) + Rep(DataFrame(number, c), n)
      ensures var f := Gather(old(answers), want);
              var l := old(State()).(answers := f.rest);
              && (f.failed <==> rc == SourceError) && (!f.failed ==> filled == |f.data|)
              && (if rc == SourceError || filled == 0 then State() == l else (rc, State()) == Exchanged(l, fault))
    {
      hide Frame, Exchange, Gather, Pad;
      n := 1;
      var ok;
      ok, filled := Fill(want);
      c := block[3..3 + filled];
      if !ok { return SourceError, filled, c, n; }
      if filled == 0 { return Ok, filled, c, n; }
      var padded := PadBlock(filled);
      rc, n := SendBlock(if padded == 128 then SOH else STX, number, padded);
    }

    /** One round of the data loop; @p over, it was the last. */
    method SendRound(name: seq<octet>, size: u32, number: octet, remaining: nat,
                     ghost chunks: seq<seq<octet>>, ghost counts: seq<nat>)
      returns (rc: Rc, over: bool, filled: nat, ghost chunks': seq<seq<octet>>, ghost counts': seq<nat>)
      requires Valid() && InData(puts, name, size, chunks, counts) && AllFull(chunks) && 0 < remaining
      requires delivered == Flat(chunks) && number == Number(|chunks| + 1)
      modifies this, block
      ensures InData(puts, name, size, chunks', counts') && Flat(chunks') <= delivered
      ensures |Flat(chunks')| <= |Flat(chunks)| + Min(remaining, 1024)
      ensures rc == Ok ==> delivered == Flat(chunks')
      ensures DataPhase(old(State()), fault, remaining) ==
              if over then (rc, State()) else DataPhase(State(), fault, if filled <= remaining then remaining - filled else 0)
      ensures !over ==>
                && rc == Ok && 0 < filled == Min(remaining, 1024) && |Flat(chunks')| == |Flat(chunks)| + filled
                && |chunks'| == |chunks| + 1 && (filled == 1024 ==> AllFull(chunks'))
    {
      hide DataFrame, InData, Sizes, AllFull, Flat, Number, Rep, Exchanged, Gather, DataPhase;
      var want := if remaining < 1024 then remaining else 1024;
      ghost var before := puts;
      ghost var c, n;
      DataRound(State(), fault, remaining);
      chunks', counts', over := chunks, counts, true;
      rc, filled, c, n := SendChunk(number, want);
      if rc == SourceError || filled == 0 { return; }
      BlockSent(before, name, size, chunks, counts, c, n);
      chunks', counts' := chunks + [c], counts + [n];
      over := rc != Ok || filled < want;
    }

    /** Step 3 of the batch: the data blocks. */
    method SendData(name: seq<octet>, size: u32, ghost counts0: seq<nat>)
      returns (rc: Rc, ghost chunks: seq<seq<octet>>, ghost counts: seq<nat>)
      requires Valid() && InData(puts, name, size, [], counts0) && delivered == []
      modifies this, block
      ensures InData(puts, name, size, chunks, counts)
      ensures |Flat(chunks)| <= size && Flat(chunks) <= delivered
      ensures rc == Ok ==> delivered == Flat(chunks)
      ensures (rc, State()) == DataPhase(old(State()), fault, size)
    {
      hide InData, AllFull, Flat, Number, DataPhase;
      chunks, counts := [], counts0;
      var remaining, number: octet := size, 1;
      NoChunks();
      while remaining > 0
        invariant remaining == size - |Flat(chunks)| && delivered == Flat(chunks)
        invariant number == Number(|chunks| + 1) && InData(puts, name, size, chunks, counts)
        invariant remaining > 0 ==> AllFull(chunks)
        invariant DataPhase(old(State()), fault, size) == DataPhase(State(), fault, remaining)
        decreases remaining
      {
        var over, filled;
        rc, over, filled, chunks, counts := SendRound(name, size, number, remaining, chunks, counts);
        if over { return; }
        NumberMore(|chunks|);
        number := number + 1;
        remaining := remaining - filled;
      }
      NoData(State(), fault);
      rc := Ok;
    }

    /** Steps 1 and 2 of the batch: handshake, block 0, the call for data. */
    method Begin(name: seq<octet>, size: u32) returns (rc: Rc, ghost ms: seq<seq<octet>>, ghost counts: seq<nat>)
      requires Valid() && IsName(name) && puts == [] && delivered == []
      modifies `input, `puts, block
      ensures Wire(puts, name, size, [], ms, counts)
      ensures rc == Ok ==> InData(puts, name, size, [], counts)
      ensures (rc, State()) == Opening(old(State()), fault)
    {
      hide Frame, Block0, Await, Exchange, Wire, InData, Body, Plan, Rep;
      ms, counts := [], [];
      NothingSent(name, size);
      ghost var n;
      rc := WaitC();
      if rc != Ok { return; }
      BuildBlock0(name, size);
      Block0RoundTrip(name, size);
      rc, n := SendBlock(SOH, 0, 128);
      HeaderSent(name, size, n);
      ms, counts := Body(name, size, []), [n];
      assert puts == [] + Rep(Frame(SOH, 0, Block0(name, size)), n) == Rep(Frame(SOH, 0, Block0(name, size)), n);
      WireOfData(puts, name, size, [], [n]);
      if rc != Ok { return; }
      rc := WaitC();
    }

    /** Steps 4 and 5: EOT and the null block. */
    method Finish(name: seq<octet>, size: u32, ghost chunks: seq<seq<octet>>, ghost counts0: seq<nat>)
      returns (rc: Rc, ghost ms: seq<seq<octet>>, ghost counts: seq<nat>)
      requires Valid() && InData(puts, name, size, chunks, counts0)
      modifies `input, `puts, block
      ensures Wire(puts, name, size, chunks, ms, counts)
      ensures rc == Ok ==> ms == Plan(name, size, chunks)
      ensures (rc, State()) == Closing(old(State()), fault)
    {
      hide Frame, Await, Exchange, Wire, InData, Body, Plan, Rep;
      WireOfData(puts, name, size, chunks, counts0);
      ghost var before := puts;
      ghost var n;
      rc, n := SendEot();
      PlanShape(name, size, chunks);
      WireMore(before, name, size, chunks, Body(name, size, chunks), counts0, [EOT], n);
      ms, counts := Body(name, size, chunks) + [[EOT]], counts0 + [n];
      if rc != Ok { return; }
      rc := WaitC();
      if rc != Ok { return; }
      Memset(128);
      assert block[3..131] == ZeroBytes(128);
      before := puts;
      rc, n := SendBlock(SOH, 0, 128);
      WireMore(before, name, size, chunks, ms, counts, Frame(SOH, 0, ZeroBytes(128)), n);
      ms, counts := ms + [Frame(SOH, 0, ZeroBytes(128))], counts + [n];
    }

    /** The batch: handshake, block 0, data, EOT, null block. */
    method Run(name: seq<octet>, size: u32)
      returns (rc: Rc, ghost chunks: seq<seq<octet>>, ghost ms: seq<seq<octet>>, ghost counts: seq<nat>)
      requires Valid() && IsName(name) && puts == [] && delivered == []
      modifies this, block
      ensures Wire(puts, name, size, chunks, ms, counts)
      ensures |Flat(chunks)| <= size && Flat(chunks) <= delivered
      ensures rc == Ok ==> ms == Plan(name, size, chunks) && delivered == Flat(chunks)
      ensures (rc, State()) == Session(old(State()), fault, size)
    {
      hide Wire, InData, Body, Plan, Opening, DataPhase, Closing;
      chunks := [];
      NoChunks();
      rc, ms, counts := Begin(name, size);
      if rc != Ok { return; }
      rc, chunks, counts := SendData(name, size, counts);
      WireOfData(puts, name, size, chunks, counts);
      ms := Body(name, size, chunks);
      if rc != Ok { return; }
      rc, ms, counts := Finish(name, size, chunks, counts);
    }

    /** `ymodem_send`: whatever the receiver, the transport and the source do, the puts are
        a prefix of the plan with 1 to 11 repeats each, then one cancel exactly on failure;
        on success a receiver has the name, the size and exactly the bytes of the source. */
    method Send(name: seq<octet>, size: u32)
      returns (rc: Rc, ghost chunks: seq<seq<octet>>, ghost ms: seq<seq<octet>>, ghost counts: seq<nat>)
      requires Valid() && IsName(name) && puts == [] && delivered == []
      modifies this, block
      ensures var end := |puts| - (if rc == Ok then 0 else 1);
              && end >= 0 && Wire(puts[..end], name, size, chunks, ms, counts)
              && puts[end..] == if rc == Ok then [] else [[0x18, 0x18, 0x18, 0x18, 0x18, 8, 8, 8, 8, 8, 8, 8, 8]]
      ensures rc == Ok ==>
                var r := TakeAll(Waiting, puts);
                && r.Closed? && r.header == Header(SentName(name), size) && |delivered| <= size && delivered <= r.data
                && (1 <= |name| <= 100 ==> r.header == Header(name, size))
                && (|delivered| == size ==> r.data[..size] == delivered)
      ensures rc == Session(old(State()), fault, size).0
    {
      hide Session, Plan, Expand, TakeAll, Sizes, Full;
      rc, chunks, ms, counts := Run(name, size);
      if rc != Ok {
        var sent := Put(CANCEL);
      } else {
        assert puts == Expand(ms, counts) && forall c <- counts :: c >= 1;
        SessionRoundTrip(name, size, chunks, counts);
        assert puts[..|puts|] == puts;
      }
    }
  }

  lemma NothingSent(name: seq<octet>, size: u32)
    ensures Wire([], name, size, [], [], []) && Flat([]) == []
  {
  }

  lemma HeaderSent(name: seq<octet>, size: u32, n: nat)
    requires 1 <= n <= RETRIES + 1
    ensures InData(Rep(Frame(SOH, 0, Block0(name, size)), n), name, size, [], [n])
  {
    hide Frame, Block0;
    var m := Frame(SOH, 0, Block0(name, size));
    PlanShape(name, size, []);
    assert Body(name, size, []) == [] + [m];
    assert [m] <= Plan(name, size, []);
    WireMore([], name, size, [], [], [], m, n);
    assert [] + Rep(m, n) == Rep(m, n) && [] + [n] == [n];
  }

  lemma WireOfData(puts: seq<seq<octet>>, name: seq<octet>, size: u32, chunks: seq<seq<octet>>, counts: seq<nat>)
    requires InData(puts, name, size, chunks, counts)
    ensures Sizes(chunks) && Wire(puts, name, size, chunks, Body(name, size, chunks), counts)
  {
  }

  lemma NoRepeats(m: seq<octet>, before: seq<seq<octet>>)
    ensures before + Rep(m, 0) == before
  {
  }

  lemma RepMore(m: seq<octet>, before: seq<seq<octet>>, n: nat)
    ensures before + Rep(m, n) + [m] == before + Rep(m, n + 1)
  {
    assert Rep(m, n) + [m] == Rep(m, n + 1);
  }

  /** One turn of the retry loop. */
  lemma ExchangeRound(input: seq<int>, sent: nat, fault: Option<nat>, attempts: nat)
    requires attempts <= RETRIES
    ensures var (h, rest) := Hear(input);
            Exchange(input, sent, fault, attempts) ==
            if fault == Some(sent) then Reply(IoError, 1, input)
            else if h == Acked then Reply(Ok, 1, rest)
            else if h == Aborted then Reply(Cancel, 1, rest)
            else if attempts == RETRIES then Reply(Timeout, 1, rest)
            else var r := Exchange(rest, sent + 1, fault, attempts + 1); r.(n := r.n + 1)
  {
    hide Hear;
  }

  lemma NoChunks()
    ensures Number(1) == 1 && Flat([]) == [] && AllFull([])
  {
    FirstNumbers();
  }

  lemma NumberMore(n: nat)
    ensures Number(n + 1) == Number(n) + 1
  {
  }

  lemma TNOnce(c: bv16, n: nat)
    requires n > 0
    ensures TN(c, n) == TN(T(c), n - 1)
  {
  }

  lemma TNZero(c: bv16)
    ensures TN(c, 0) == c
  {
  }
}
