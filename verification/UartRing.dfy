/** The byte ring of shell/backend/cli_uart_ring.h as a FIFO of capacity size - 1, and its
    lock-free use by one producer and one consumer, interleaved at single loads and stores. */
module UartRing {
  import opened Machine

  datatype Ring = Ring(buf: seq<byte>, head: nat, tail: nat)

  predicate Ok(r: Ring) { |r.buf| >= 2 && r.head < |r.buf| && r.tail < |r.buf| }

  /** The index after @p i, modulo the size. */
  function Succ(i: nat, size: nat): nat { if i + 1 == size then 0 else i + 1 }

  /** The bytes stored, oldest first. */
  function Contents(r: Ring): (c: seq<byte>)
    requires Ok(r)
    ensures |c| == Count(r) < |r.buf|
  {
    if r.head >= r.tail then r.buf[r.tail..r.head] else r.buf[r.tail..] + r.buf[..r.head]
  }

  function Count(r: Ring): nat
    requires Ok(r)
  {
    if r.head >= r.tail then r.head - r.tail else |r.buf| - r.tail + r.head
  }

  function Put(r: Ring, b: byte): (Ring, bool)
    requires Ok(r)
  {
    var next := Succ(r.head, |r.buf|);
    if next == r.tail then (r, false) else (r.(buf := r.buf[r.head := b], head := next), true)
  }

  function Get(r: Ring): (Ring, Option<byte>)
    requires Ok(r)
  {
    if r.tail == r.head then (r, None) else (r.(tail := Succ(r.tail, |r.buf|)), Some(r.buf[r.tail]))
  }

  /** Put one after the other until the ring is full; the number accepted. */
  function PutAll(r: Ring, d: seq<byte>): (p: (Ring, nat))
    requires Ok(r)
    ensures p.1 <= |d|
    decreases |d|
  {
    if d == [] then (r, 0)
    else
      var (r1, ok) := Put(r, d[0]);
      if !ok then (r, 0) else var (r2, n) := PutAll(r1, d[1..]); (r2, n + 1)
  }

  /** Get one after the other until @p cap bytes are out or the ring is empty. */
  function GetAll(r: Ring, cap: nat): (g: (Ring, seq<byte>))
    requires Ok(r)
    ensures Ok(g.0) && |g.1| <= cap
    decreases cap
  {
    if cap == 0 then (r, [])
    else
      var (r1, b) := Get(r);
      if b.None? then (r1, []) else var (r2, d) := GetAll(r1, cap - 1); (r2, [b.value] + d)
  }

  /** The run from the tail to the head or to the end of the buffer. */
  function Contig(r: Ring): nat
    requires Ok(r)
  {
    if r.head >= r.tail then r.head - r.tail else |r.buf| - r.tail
  }

  function Advance(r: Ring, n: nat): Ring
    requires Ok(r) && n <= |r.buf|
  {
    r.(tail := if r.tail + n >= |r.buf| then r.tail + n - |r.buf| else r.tail + n)
  }

  // ---- a FIFO of capacity size - 1 ---------------------------------------------------

  lemma PutIsFifo(r: Ring, b: byte)
    requires Ok(r)
    ensures var (r', ok) := Put(r, b);
            && Ok(r') && |r'.buf| == |r.buf| && r'.tail == r.tail
            && (ok <==> |Contents(r)| < |r.buf| - 1)
            && Contents(r') == if ok then Contents(r) + [b] else Contents(r)
  {
  }

  lemma GetIsFifo(r: Ring)
    requires Ok(r)
    ensures var (r', b) := Get(r);
            && Ok(r') && (b.None? <==> Contents(r) == [])
            && (if b.None? then r' == r else Contents(r) == [b.value] + Contents(r'))
  {
    if r.head > r.tail {
      FirstOff(r.buf, r.tail, r.head);
    } else if r.head < r.tail {
      FirstOff(r.buf, r.tail, |r.buf|);
      assert r.buf[|r.buf|..] == [] && r.buf[0..r.head] == r.buf[..r.head];
    }
  }

  lemma FirstOff(s: seq<byte>, i: nat, j: nat)
    requires i < j <= |s|
    ensures s[i..j] == [s[i]] + s[i + 1..j]
  {
  }

  lemma {:induction false} PutAllIsFifo(r: Ring, d: seq<byte>)
    requires Ok(r)
    ensures var (r', n) := PutAll(r, d);
            && Ok(r') && |r'.buf| == |r.buf| && r'.tail == r.tail
            && n == Min(|d|, |r.buf| - 1 - |Contents(r)|)
            && Contents(r') == Contents(r) + d[..n]
    decreases |d|
  {
    hide Put, Contents, Ok;
    if d == [] {
    } else {
      PutIsFifo(r, d[0]);
      var (r1, ok) := Put(r, d[0]);
      if ok {
        PutAllIsFifo(r1, d[1..]);
        var n := PutAll(r1, d[1..]).1;
        assert (Contents(r) + [d[0]]) + d[1..][..n] == Contents(r) + d[..n + 1];
      }
    }
  }

  /** What a drain gives behind the bytes @p pre that are already out. */
  function Behind(pre: seq<byte>, g: (Ring, seq<byte>)): (Ring, seq<byte>) { (g.0, pre + g.1) }

  /** One turn of a drain. */
  lemma DrainTurn(r: Ring, cap: nat, pre: seq<byte>)
    requires Ok(r)
    ensures cap == 0 ==> Behind(pre, GetAll(r, cap)) == (r, pre)
    ensures cap > 0 ==>
              var (r1, b) := Get(r);
              Ok(r1) && Behind(pre, GetAll(r, cap)) == if b.None? then (r1, pre) else Behind(pre + [b.value], GetAll(r1, cap - 1))
  {
    hide Contents;
    GetIsFifo(r);
    assert pre + [] == pre;
    if cap > 0 && Get(r).1.Some? {
      var d := GetAll(Get(r).0, cap - 1).1;
      assert pre + ([Get(r).1.value] + d) == (pre + [Get(r).1.value]) + d;
    }
  }

  /** Draining takes the oldest bytes, all of them or as many as asked for. */
  lemma {:induction false} GetAllIsFifo(r: Ring, cap: nat)
    requires Ok(r)
    ensures var (r', d) := GetAll(r, cap);
            |d| == Min(cap, |Contents(r)|) && Contents(r) == d + Contents(r')
    decreases cap
  {
    hide Get, Contents, Ok;
    GetIsFifo(r);
    if cap == 0 || Get(r).1.None? {
    } else {
      GetAllIsFifo(Get(r).0, cap - 1);
    }
  }

  /** The contiguous run is the oldest part of the contents, in place; it is empty only if
      the ring is. */
  lemma ContigIsOldest(r: Ring)
    requires Ok(r)
    ensures Contig(r) <= |Contents(r)| && r.tail + Contig(r) <= |r.buf|
    ensures r.buf[r.tail..r.tail + Contig(r)] == Contents(r)[..Contig(r)]
    ensures Contig(r) == 0 <==> Contents(r) == []
  {
  }

  lemma AdvanceIsFifo(r: Ring, n: nat)
    requires Ok(r) && n <= |Contents(r)|
    ensures Ok(Advance(r, n)) && Contents(Advance(r, n)) == Contents(r)[n..]
  {
  }

  /** The bytes of the contiguous run stay where they are while more are stored. */
  lemma {:induction false} PutAllKeepsRun(r: Ring, d: seq<byte>, n: nat)
    requires Ok(r) && n <= Contig(r)
    ensures var r' := PutAll(r, d).0;
            Ok(r') && |r'.buf| == |r.buf| && r'.tail == r.tail && n <= Contig(r') && r.tail + n <= |r.buf|
            && r'.buf[r.tail..r.tail + n] == r.buf[r.tail..r.tail + n]
    decreases |d|
  {
    if d == [] || !Put(r, d[0]).1 {
    } else {
      PutAllKeepsRun(Put(r, d[0]).0, d[1..], n);
    }
  }

  // ---- one producer and one consumer, without a lock -------------------------------------

  /** Where each side is: before its test, before its data access, before it publishes. */
  datatype Producer = PIdle | PChecked(b: byte) | PStored(b: byte)

  datatype Consumer = CIdle | CSeen | CLoaded(b: byte)

  /** @p accepted and @p taken: the bytes whose put and get have taken effect. */
  datatype Spsc = Spsc(r: Ring, p: Producer, c: Consumer, accepted: seq<byte>, taken: seq<byte>)

  datatype Step =
    | PTest(b: byte)   // load the tail and compare
    | PStore           // store the byte
    | PPublish         // store the head
    | CTest            // load the head and compare
    | CLoad            // load the byte
    | CPublish         // store the tail

  predicate CanStep(s: Spsc, e: Step) {
    match e
    case PTest(_) => s.p.PIdle?
    case PStore => s.p.PChecked?
    case PPublish => s.p.PStored?
    case CTest => s.c.CIdle?
    case CLoad => s.c.CSeen?
    case CPublish => s.c.CLoaded?
  }

  function Do(s: Spsc, e: Step): Spsc
    requires Ok(s.r) && CanStep(s, e)
  {
    var n := |s.r.buf|;
    match e
    case PTest(b) => if Succ(s.r.head, n) == s.r.tail then s else s.(p := PChecked(b))
    case PStore => s.(r := s.r.(buf := s.r.buf[s.r.head := s.p.b]), p := PStored(s.p.b))
    case PPublish => s.(r := s.r.(head := Succ(s.r.head, n)), p := PIdle, accepted := s.accepted + [s.p.b])
    case CTest => if s.r.tail == s.r.head then s else s.(c := CSeen)
    case CLoad => s.(c := CLoaded(s.r.buf[s.r.tail]))
    case CPublish => s.(r := s.r.(tail := Succ(s.r.tail, n)), c := CIdle, taken := s.taken + [s.c.b])
  }

  /** Nothing is lost, duplicated or reordered; a producer past its test has a free cell
      and the byte it publishes is in it; a consumer past its test has the oldest byte. */
  predicate Inv(s: Spsc) {
    && Ok(s.r)
    && s.accepted == s.taken + Contents(s.r)
    && (!s.p.PIdle? ==> Succ(s.r.head, |s.r.buf|) != s.r.tail)
    && (s.p.PStored? ==> s.r.buf[s.r.head] == s.p.b)
    && (!s.c.CIdle? ==> s.r.tail != s.r.head)
    && (s.c.CLoaded? ==> Contents(s.r)[0] == s.c.b)
  }

  /** The cell at the head is outside the contents. */
  lemma HeadIsFree(r: Ring, b: byte)
    requires Ok(r)
    ensures Ok(r.(buf := r.buf[r.head := b])) && Contents(r.(buf := r.buf[r.head := b])) == Contents(r)
    ensures Contents(r) != [] ==> Contents(r)[0] == r.buf[r.tail]
  {
  }

  lemma ProducerKeeps(s: Spsc, e: Step)
    requires Inv(s) && CanStep(s, e) && (e.PTest? || e.PStore? || e.PPublish?)
    ensures Inv(Do(s, e))
  {
    hide Contents;
    var n := |s.r.buf|;
    match e {
      case PStore => HeadIsFree(s.r, s.p.b);
      case PPublish =>
        PutIsFifo(s.r, s.p.b);
        assert s.r.buf[s.r.head := s.p.b] == s.r.buf;
        HeadIsFree(s.r, s.p.b);
        HeadIsFree(Do(s, e).r, 0);
      case _ =>
    }
  }

  lemma ConsumerKeeps(s: Spsc, e: Step)
    requires Inv(s) && CanStep(s, e) && (e.CTest? || e.CLoad? || e.CPublish?)
    ensures Inv(Do(s, e))
  {
    hide Contents;
    GetIsFifo(s.r);
    HeadIsFree(s.r, 0);
    if e.CPublish? {
      var rest := Contents(Do(s, e).r);
      assert s.taken + ([s.c.b] + rest) == (s.taken + [s.c.b]) + rest;
    }
  }

  lemma StepKeeps(s: Spsc, e: Step)
    requires Inv(s) && CanStep(s, e)
    ensures Inv(Do(s, e)) && |Do(s, e).r.buf| == |s.r.buf|
  {
    match e
    case PTest(_) => ProducerKeeps(s, e);
    case PStore => ProducerKeeps(s, e);
    case PPublish => ProducerKeeps(s, e);
    case _ => ConsumerKeeps(s, e);
  }

  /** The steps can be taken in this order. */
  ghost predicate Possible(s: Spsc, es: seq<Step>)
    requires Inv(s)
    decreases |es|
  {
    es == [] || (CanStep(s, es[0]) && (StepKeeps(s, es[0]); Possible(Do(s, es[0]), es[1..])))
  }

  /** Every run keeps the invariant. */
  ghost function After(s: Spsc, es: seq<Step>): (s': Spsc)
    requires Inv(s) && Possible(s, es)
    ensures Inv(s')
    decreases |es|
  {
    if es == [] then s else StepKeeps(s, es[0]); After(Do(s, es[0]), es[1..])
  }

  /** A ring that was just set up, with both sides at rest. */
  function Fresh(buf: seq<byte>): (s: Spsc)
    requires |buf| >= 2
    ensures Inv(s)
  {
    Spsc(Ring(buf, 0, 0), PIdle, CIdle, [], [])
  }

  /** All interleavings: the accepted bytes are the taken ones followed by those stored,
      at most size - 1 of them. */
  lemma {:induction false} RunIsFifo(s: Spsc, es: seq<Step>)
    requires Inv(s) && Possible(s, es)
    ensures |After(s, es).r.buf| == |s.r.buf|
    ensures var s' := After(s, es); s'.accepted == s'.taken + Contents(s'.r) && |Contents(s'.r)| <= |s.r.buf| - 1
    decreases |es|
  {
    if es == [] {
    } else {
      StepKeeps(s, es[0]);
      RunIsFifo(Do(s, es[0]), es[1..]);
    }
  }

  /** At its load, a byte is refused exactly if the FIFO is full, and the consumer finds
      nothing exactly if it is empty. */
  lemma TestsAreExact(s: Spsc, b: byte)
    requires Inv(s)
    ensures s.p.PIdle? ==> (Do(s, PTest(b)) == s <==> |Contents(s.r)| == |s.r.buf| - 1)
    ensures s.c.CIdle? ==> (Do(s, CTest) == s <==> Contents(s.r) == [])
  {
  }

  /** The cell the producer writes is never one the consumer may read. */
  lemma DistinctCells(s: Spsc)
    requires Inv(s) && s.p.PChecked? && !s.c.CIdle?
    ensures s.r.head != s.r.tail && Contents(Do(s, PStore).r) == Contents(s.r)
  {
    StepKeeps(s, PStore);
    assert Contents(Do(s, PStore).r) == Contents(s.r);
  }
}
