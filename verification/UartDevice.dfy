/** The ring and the transmit side as the code updates them in place, proved against
    `UartRing` and `UartTx`. */
module UartDevice {
  import opened Machine
  import R = UartRing
  import T = UartTx

  lemma NextIndex(i: nat, size: nat)
    requires i < size
    ensures (i + 1) % size == R.Succ(i, size)
  {
    if i + 1 < size { ModUnique(i + 1, size, 0, i + 1); } else { ModUnique(size, size, 1, 0); }
  }

  lemma WrapIndex(i: nat, n: nat, size: nat)
    requires i < size && n <= size && size > 0
    ensures (i + n) % size == if i + n >= size then i + n - size else i + n
  {
    if i + n >= size {
      ModUnique(i + n, size, 1, i + n - size);
    } else {
      ModUnique(i + n, size, 0, i + n);
    }
  }

  class ByteRing {
    const buf: array<byte>
    var head: nat
    var tail: nat

    ghost predicate Valid()
      reads this
    {
      buf.Length >= 2 && head < buf.Length && tail < buf.Length
    }

    ghost function State(): (r: R.Ring)
      requires Valid()
      reads this, buf
      ensures R.Ok(r)
    {
      R.Ring(buf[..], head, tail)
    }

    constructor (b: array<byte>)
      requires b.Length >= 2
      ensures buf == b && Valid() && State() == R.Fresh(b[..]).r && R.Contents(State()) == []
    {
      buf, head, tail := b, 0, 0;
    }

    /** Bytes stored. */
    method Count() returns (n: nat)
      requires Valid()
      ensures n == |R.Contents(State())|
    {
      n := if head >= tail then head - tail else buf.Length - tail + head;
    }

    method Free() returns (n: nat)
      requires Valid()
      ensures n == buf.Length - 1 - |R.Contents(State())|
    {
      var used := Count();
      n := buf.Length - 1 - used;
    }

    method Put(b: byte) returns (ok: bool)
      requires Valid()
      modifies `head, buf
      ensures Valid() && (State(), ok) == R.Put(old(State()), b)
    {
      NextIndex(head, buf.Length);
      var next := (head + 1) % buf.Length;
      if next == tail { return false; }
      buf[head] := b;
      head := next;
      ok := true;
    }

    method Get() returns (b: Option<byte>)
      requires Valid()
      modifies `tail
      ensures Valid() && (State(), b) == R.Get(old(State()))
    {
      if tail == head { return None; }
      b := Some(buf[tail]);
      NextIndex(tail, buf.Length);
      tail := (tail + 1) % buf.Length;
    }

    method PutBuf(d: seq<byte>) returns (n: nat)
      requires Valid()
      modifies `head, buf
      ensures Valid() && (State(), n) == R.PutAll(old(State()), d)
    {
      n := 0;
      while n < |d|
        invariant n <= |d| && Valid()
        invariant var (r, k) := R.PutAll(State(), d[n..]); (r, n + k) == R.PutAll(old(State()), d)
      {
        hide R.Put;
        assert d[n..][1..] == d[n + 1..];
        var ok := Put(d[n]);
        if !ok { return; }
        n := n + 1;
      }
    }

    method GetBuf(out: array<byte>) returns (n: nat)
      requires Valid() && out != buf
      modifies `tail, out
      ensures Valid() && n <= out.Length
      ensures (State(), out[..n]) == R.GetAll(old(State()), out.Length)
      ensures forall j :: n <= j < out.Length ==> out[j] == old(out[j])
    {
      hide R.Get, R.Contents, R.GetAll;
      n := 0;
      ghost var got: seq<byte> := [];
      NothingBefore(R.GetAll(State(), out.Length));
      while n < out.Length
        invariant n <= out.Length && Valid() && buf[..] == old(buf[..]) && out[..n] == got
        invariant R.Behind(got, R.GetAll(State(), out.Length - n)) == R.GetAll(old(State()), out.Length)
        invariant forall j :: n <= j < out.Length ==> out[j] == old(out[j])
      {
        R.DrainTurn(State(), out.Length - n, got);
        var b := Get();
        if b.None? { return; }
        out[n] := b.value;
        assert out[..n + 1] == got + [b.value];
        n, got := n + 1, got + [b.value];
      }
      R.DrainTurn(State(), 0, got);
    }

    static lemma NothingBefore(g: (R.Ring, seq<byte>))
      ensures R.Behind([], g) == g
    {
      assert [] + g.1 == g.1;
    }

    /** The run that can be handed to the hardware, at index `tail`. */
    method Contig() returns (run: nat)
      requires Valid()
      ensures run == R.Contig(State())
    {
      run := if head >= tail then head - tail else buf.Length - tail;
    }

    method AdvanceTail(n: nat)
      requires Valid() && n <= buf.Length
      modifies `tail
      ensures Valid() && State() == R.Advance(old(State()), n)
    {
      WrapIndex(tail, n, buf.Length);
      tail := (tail + n) % buf.Length;
    }
  }

  class Uart {
    const tx: ByteRing
    var inFlight: bool
    var chunk: nat

    ghost predicate Valid()
      reads this, tx
    {
      tx.Valid() && chunk <= tx.buf.Length
    }

    ghost function State(): T.Tx
      requires Valid()
      reads this, tx, tx.buf
    {
      T.Tx(tx.State(), inFlight, chunk)
    }

    /** `uart_init`: the line starts empty. */
    constructor (buffer: array<byte>)
      requires buffer.Length >= 2
      ensures fresh(tx) && tx.buf == buffer && Valid()
      ensures T.Line(State(), 0, [], []) == T.FreshLine(buffer[..])
    {
      tx := new ByteRing(buffer);
      inFlight, chunk := false, 0;
    }

    /** `tx_start_locked`; @p ok, the answer of HAL_UART_Transmit_IT. */
    method StartLocked(ok: bool)
      requires Valid()
      modifies this
      ensures Valid() && State() == T.Start(old(State()), ok)
      ensures var waiting := R.Contents(tx.State());
              if !old(inFlight) && ok && waiting != []
              then inFlight && chunk == Min(|waiting|, tx.buf.Length - tx.tail)
              else inFlight == old(inFlight) && chunk == old(chunk)
    {
      T.StartTakesRun(State(), ok);
      if inFlight { return; }
      var run := tx.Contig();
      if run == 0 { return; }
      R.ContigIsOldest(tx.State());
      if ok { inFlight, chunk := true, run; }
    }

    /** `uart_write`. */
    method Write(d: seq<byte>, ok: bool) returns (n: nat)
      requires Valid()
      modifies this, tx, tx.buf
      ensures Valid() && (State(), n) == T.Write(old(State()), d, ok)
      ensures n == Min(|d|, tx.buf.Length - 1 - |old(R.Contents(tx.State()))|)
      ensures R.Contents(tx.State()) == old(R.Contents(tx.State())) + d[..n]
    {
      R.PutAllIsFifo(tx.State(), d);
      n := tx.PutBuf(d);
      StartLocked(ok);
    }

    /** The critical section of `tx_putc_spin`: the byte is stored or the ring was full. */
    method PutcOnce(b: byte, ok: bool) returns (stored: bool)
      requires Valid()
      modifies this, tx, tx.buf
      ensures Valid() && (State(), if stored then 1 else 0) == T.Write(old(State()), [b], ok)
    {
      hide R.Put;
      ghost var r0 := tx.State();
      stored := tx.Put(b);
      assert R.PutAll(r0, [b]) == (R.Put(r0, b).0, if stored then 1 else 0) by {
        assert [b][1..] == [];
        OnePut(r0, b);
      }
      StartLocked(ok);
    }

    /** The transmit-complete callback. */
    method TxComplete(ok: bool)
      requires Valid()
      modifies this, tx
      ensures Valid() && State() == T.Complete(old(State()), ok)
      ensures old(chunk) <= |old(R.Contents(tx.State()))| ==> R.Contents(tx.State()) == old(R.Contents(tx.State()))[old(chunk)..]
    {
      if chunk <= |R.Contents(tx.State())| { R.AdvanceIsFifo(tx.State(), chunk); }
      tx.AdvanceTail(chunk);
      chunk, inFlight := 0, false;
      StartLocked(ok);
    }
  }

  lemma OnePut(r: R.Ring, b: byte)
    requires R.Ok(r)
    ensures var (r', ok) := R.Put(r, b); R.PutAll(r, [b]) == (r', if ok then 1 else 0)
  {
    R.PutIsFifo(r, b);
    var r1 := R.Put(r, b).0;
    assert R.PutAll(r1, []) == (r1, 0);
  }
}
