/** Interrupt-driven transmission of shell/backend/cli_backend_uart.c over the byte ring.
    Each PRIMASK section is one step; the hardware shifts the bytes of a transfer out one by
    one, reading each from the ring's buffer only when its turn comes. */
module UartTx {
  import opened Machine
  import opened UartRing

  /** The transmit side of a UART; @p inFlight and @p chunk: the transfer handed to HAL. */
  datatype Tx = Tx(r: Ring, inFlight: bool, chunk: nat)

  /** `tx_start_locked`; @p ok, HAL takes the transfer. */
  function Start(t: Tx, ok: bool): Tx
    requires Ok(t.r)
  {
    if t.inFlight || Contig(t.r) == 0 || !ok then t else t.(inFlight := true, chunk := Contig(t.r))
  }

  /** `uart_write`, and `tx_putc_spin`'s section for one byte. */
  function Write(t: Tx, d: seq<byte>, ok: bool): (w: (Tx, nat))
    requires Ok(t.r)
    ensures w.1 <= |d|
  {
    var (r, n) := PutAll(t.r, d);
    PutAllIsFifo(t.r, d);
    (Start(t.(r := r), ok), n)
  }

  /** The transmit-complete callback. */
  function Complete(t: Tx, ok: bool): Tx
    requires Ok(t.r) && t.chunk <= |t.r.buf|
  {
    Start(Tx(Advance(t.r, t.chunk), false, 0), ok)
  }

  /** An idle transmitter with bytes waiting hands HAL the whole run up to the head or the end of
      the buffer, if HAL takes it; anything else starts nothing. */
  lemma StartTakesRun(t: Tx, ok: bool)
    requires Ok(t.r)
    ensures var t', n := Start(t, ok), |Contents(t.r)|;
            && (!t.inFlight && ok && n > 0 ==>
                  t'.inFlight && t'.chunk == Min(n, |t.r.buf| - t.r.tail) && t'.r == t.r)
            && (t.inFlight || !ok || n == 0 ==> t' == t)
  {
  }

  // ---- the line -----------------------------------------------------------------------

  /** @p sent bytes of the transfer have been shifted out; @p wire is everything shifted
      out so far, @p accepted every byte a writer was told is accepted. */
  datatype Line = Line(t: Tx, sent: nat, wire: seq<byte>, accepted: seq<byte>)

  datatype Event = Writes(d: seq<byte>, ok: bool) | Shifts | Completes(ok: bool)

  predicate Enabled(l: Line, e: Event) {
    match e
    case Writes(_, _) => true
    case Shifts => l.t.inFlight && l.sent < l.t.chunk
    case Completes(_) => l.t.inFlight && l.sent == l.t.chunk
  }

  predicate Inv(l: Line) {
    && Ok(l.t.r)
    && l.sent <= l.t.chunk <= Contig(l.t.r) && (l.t.inFlight <==> l.t.chunk > 0)
    && Contig(l.t.r) <= |Contents(l.t.r)| && l.t.r.tail + Contig(l.t.r) <= |l.t.r.buf|
    && l.accepted == l.wire + Contents(l.t.r)[l.sent..]
  }

  function Next(l: Line, e: Event): Line
    requires Inv(l) && Enabled(l, e)
  {
    match e
    case Writes(d, ok) => var (t, n) := Write(l.t, d, ok); l.(t := t, accepted := l.accepted + d[..n])
    case Shifts => l.(sent := l.sent + 1, wire := l.wire + [l.t.r.buf[l.t.r.tail + l.sent]])
    case Completes(ok) => l.(t := Complete(l.t, ok), sent := 0)
  }

  lemma WriteKeeps(l: Line, d: seq<byte>, ok: bool)
    requires Inv(l)
    ensures Inv(Next(l, Writes(d, ok)))
  {
    hide PutAll, Contents, Contig, Count;
    var r := l.t.r;
    PutAllIsFifo(r, d);
    PutAllKeepsRun(r, d, l.t.chunk);
    ContigIsOldest(PutAll(r, d).0);
    var n := PutAll(r, d).1;
    assert (Contents(r) + d[..n])[l.sent..] == Contents(r)[l.sent..] + d[..n];
  }

  lemma ShiftKeeps(l: Line)
    requires Inv(l) && Enabled(l, Shifts)
    ensures Inv(Next(l, Shifts))
  {
    hide Contents, Contig, Count;
    var r := l.t.r;
    ContigIsOldest(r);
    assert r.buf[r.tail..r.tail + Contig(r)][l.sent] == Contents(r)[..Contig(r)][l.sent];
    assert Contents(r)[l.sent..] == [Contents(r)[l.sent]] + Contents(r)[l.sent + 1..];
  }

  lemma CompleteKeeps(l: Line, ok: bool)
    requires Inv(l) && Enabled(l, Completes(ok))
    ensures Inv(Next(l, Completes(ok)))
  {
    hide Contents, Contig, Count;
    AdvanceIsFifo(l.t.r, l.t.chunk);
    var r := Advance(l.t.r, l.t.chunk);
    ContigIsOldest(r);
    assert Contents(r)[0..] == Contents(r);
  }

  /** With HAL accepting, no byte is left waiting without a transfer under way. */
  lemma NeverStuck(l: Line, e: Event)
    requires Inv(l) && Enabled(l, e) && !e.Shifts? && e.ok
    ensures Inv(Next(l, e)) && (Contents(Next(l, e).t.r) != [] ==> Next(l, e).t.inFlight)
  {
    match e {
      case Writes(d, ok) => WriteKeeps(l, d, ok);
        PutAllIsFifo(l.t.r, d);
        ContigIsOldest(PutAll(l.t.r, d).0);
      case Completes(ok) => CompleteKeeps(l, ok);
        AdvanceIsFifo(l.t.r, l.t.chunk);
        ContigIsOldest(Advance(l.t.r, l.t.chunk));
    }
  }

  /** A write accepts what fits, and no less. */
  lemma WriteTakesAll(l: Line, d: seq<byte>, ok: bool)
    requires Inv(l)
    ensures Write(l.t, d, ok).1 == Min(|d|, |l.t.r.buf| - 1 - |Contents(l.t.r)|)
    ensures Next(l, Writes(d, ok)).accepted == l.accepted + d[..Write(l.t, d, ok).1]
  {
    PutAllIsFifo(l.t.r, d);
  }

  // ---- runs -----------------------------------------------------------------------------

  lemma StepKeeps(l: Line, e: Event)
    requires Inv(l) && Enabled(l, e)
    ensures Inv(Next(l, e))
  {
    match e
    case Writes(d, ok) => WriteKeeps(l, d, ok);
    case Shifts => ShiftKeeps(l);
    case Completes(ok) => CompleteKeeps(l, ok);
  }

  /** The events can happen in this order. */
  ghost predicate Possible(l: Line, es: seq<Event>)
    requires Inv(l)
    decreases |es|
  {
    es == [] || (Enabled(l, es[0]) && (StepKeeps(l, es[0]); Possible(Next(l, es[0]), es[1..])))
  }

  /** Every run keeps the invariant. */
  ghost function After(l: Line, es: seq<Event>): (l': Line)
    requires Inv(l) && Possible(l, es)
    ensures Inv(l')
    decreases |es|
  {
    if es == [] then l else StepKeeps(l, es[0]); After(Next(l, es[0]), es[1..])
  }

  /** All interleavings of the writers, the hardware and the callback, whatever HAL accepts:
      the line carries the accepted bytes in order, each once, and the ring holds exactly
      the rest; a drained ring means everything accepted has gone out. */
  lemma RunConserves(l: Line, es: seq<Event>)
    requires Inv(l) && Possible(l, es)
    ensures var l' := After(l, es);
            && Ok(l'.t.r) && l'.sent <= |Contents(l'.t.r)| && l'.accepted == l'.wire + Contents(l'.t.r)[l'.sent..] && l'.wire <= l'.accepted
            && (Contents(l'.t.r) == [] ==> l'.wire == l'.accepted)
  {
    hide Next, Inv, Contents, Ok, After, Possible;
    EndOfRun(After(l, es));
  }

  lemma EndOfRun(l: Line)
    requires Inv(l)
    ensures Ok(l.t.r) && l.sent <= |Contents(l.t.r)|
    ensures l.accepted == l.wire + Contents(l.t.r)[l.sent..] && (Contents(l.t.r) == [] ==> l.wire == l.accepted)
  {
  }

  /** Before the first byte. */
  function FreshLine(buf: seq<byte>): (l: Line)
    requires |buf| >= 2
    ensures Inv(l)
  {
    Line(Tx(Ring(buf, 0, 0), false, 0), 0, [], [])
  }
}
