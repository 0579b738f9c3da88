/** The dmesg iterator (svc/log.c): a cursor over a snapshot that survives appends,
    evictions and clears between its steps. */
module LogIter {
  import opened Machine
  import opened LogRecord
  import opened LogRing
  import opened LogAppend
  import opened LogBoot
  import opened LogRuns

  // ---- one step of the cursor, on never-wrapping offsets ---------------------

  /** The first record at or after @p pos and before @p end among the entries @p es that
      start at offset @p at, and where the cursor is left. */
  function Find(es: seq<Entry>, at: nat, pos: nat, end: nat): (nat, Option<Record>)
    decreases |es|
  {
    if pos >= end || es == [] then (pos, None)
    else if pos > at then Find(es[1..], at + Len(es[0]), pos, end)
    else
      match es[0]
      case Skip(n) => Find(es[1..], at + n, at + n, end)
      case Rec(r) => (at + RecLen(r), Some(r))
  }

  function Max(a: nat, b: nat): nat { if a < b then b else a }

  /** `log_iter_next`: resynchronise with the tail, then look for a record. */
  function IterNext(q: Queue, pos: nat, end: nat): (nat, Option<Record>) {
    Find(q.entries, q.base, Max(pos, q.base), end)
  }

  /** @p pos lies between two entries of the queue. */
  ghost predicate Boundary(q: Queue, pos: nat) {
    exists i: nat :: i <= |q.entries| && pos == q.base + TotalLen(q.entries[..i])
  }

  /** The 32-bit comparisons of the code decide the order of the unbounded offsets exactly
      as long as the later one is less than 2^31 ahead. */
  lemma SignedOrder(a: nat, b: nat)
    requires -TWO32 < a - b < TWO31
    ensures (Signed32(Sub32(a % TWO32, b % TWO32)) < 0) == (a < b) <==> b - a <= TWO31
  {
    if a >= b {
      WordOffsets(b, a - b);
    } else {
      WordOffsets(a, b - a);
    }
  }

  // ---- how the queue may change under the iterator ---------------------------

  /** @p q is what @p q0 can become: old entries leave from the front, new ones join at the
      back. */
  ghost predicate Evolves(q0: Queue, q: Queue) {
    && q0.base <= q.base && End(q0) <= End(q)
    && (q.base < End(q0) ==> exists j: nat :: Kept(q0, q, j))
  }

  /** Exactly the first @p j entries of @p q0 are gone. */
  ghost predicate Kept(q0: Queue, q: Queue, j: nat) {
    j <= |q0.entries| && q.base == q0.base + TotalLen(q0.entries[..j]) && q0.entries[j..] <= q.entries
  }

  lemma TotalLenTake(es: seq<Entry>, i: nat, j: nat)
    requires i <= j <= |es|
    ensures TotalLen(es[..j]) == TotalLen(es[..i]) + TotalLen(es[i..j])
    ensures TotalLen(es) == TotalLen(es[..j]) + TotalLen(es[j..])
  {
    assert es[..j] == es[..i] + es[i..j] && es == es[..j] + es[j..];
    TotalLenConcat(es[..i], es[i..j]);
    TotalLenConcat(es[..j], es[j..]);
  }

  lemma TotalLenNext(es: seq<Entry>, i: nat)
    requires i < |es|
    ensures TotalLen(es[..i + 1]) == TotalLen(es[..i]) + Len(es[i])
    ensures TotalLen(es) == TotalLen(es[..i + 1]) + TotalLen(es[i + 1..])
  {
    TotalLenTake(es, i, i + 1);
    assert es[i..i + 1] == [es[i]] && TotalLen([es[i]]) == Len(es[i]);
  }

  lemma KeptTrans(a: Queue, b: Queue, c: Queue, i: nat, j: nat)
    requires Kept(a, b, i) && Kept(b, c, j) && i + j <= |a.entries|
    ensures Kept(a, c, i + j)
  {
    assert b.entries[..j] == a.entries[i..][..j] == a.entries[i..i + j];
    TotalLenTake(a.entries, i, i + j);
    assert a.entries[i + j..] == a.entries[i..][j..] <= b.entries[j..] <= c.entries;
  }

  lemma EvolvesTrans(a: Queue, b: Queue, c: Queue)
    requires Evolves(a, b) && Evolves(b, c) && Positive(b.entries)
    ensures Evolves(a, c)
  {
    if c.base < End(a) {
      var i: nat :| Kept(a, b, i);
      var j: nat :| Kept(b, c, j);
      if i + j > |a.entries| {
        var m := |a.entries| - i;
        assert b.entries[..m] == a.entries[i..];
        TotalLenTake(a.entries, i, i);
        TotalLenTake(b.entries, m, j);
        assert false;
      }
      KeptTrans(a, b, c, i, j);
    }
  }

  predicate Positive(es: seq<Entry>) { forall e <- es :: Len(e) > 0 }

  lemma PositiveAt(es: seq<Entry>, i: nat)
    requires i < |es| && Positive(es)
    ensures Len(es[i]) > 0
  {
  }

  lemma {:induction false} HoldsPositive(d: seq<byte>, p: nat, es: seq<Entry>)
    requires Holds(d, p, es)
    ensures Positive(es)
    decreases |es|
  {
    hide EntryAt, Len;
    if es == [] {
    } else {
      EntrySize(d, p, es[0]);
      HoldsPositive(d, Wrap(|d|, p + Len(es[0])), es[1..]);
      assert forall e <- es :: e == es[0] || e in es[1..];
    }
  }

  lemma DropEvolves(q: Queue, k: nat)
    requires k <= |q.entries|
    ensures Evolves(q, Drop(q, k))
  {
    EndStays(q, k);
    assert Kept(q, Drop(q, k), k);
  }

  lemma PushKeeps(q0: Queue, q: Queue, e: Entry)
    requires Evolves(q0, q)
    ensures Evolves(q0, Push(q, e))
  {
    TotalLenConcat(q.entries, [e]);
    if q.base < End(q0) {
      var j: nat :| Kept(q0, q, j);
      assert Kept(q0, Push(q, e), j);
    }
  }

  lemma CutEvolves(n: nat, q: Queue, r: Record, k: nat)
    requires 0 < n
    ensures Evolves(q, CutQueue(n, q, r, k))
  {
    hide Evolves, SkipBefore, EvictCount, TotalLen, Phys;
    var skip := SkipBefore(n, End(q) % TWO32, RecLen(r));
    var j := EvictCount(n, q.entries, skip + RecLen(r));
    DropEvolves(q, Min(k, j));
    DropEvolves(q, j);
    PushKeeps(q, Drop(q, j), Skip(skip));
    PushKeeps(q, if skip > 0 && k >= j + 5 then Push(Drop(q, j), Skip(skip)) else Drop(q, j), Rec(r));
  }

  /** Every operation, cut anywhere, only evolves the queue. */
  lemma StepEvolves(w: World, s: Step)
    requires Good(w) && OpOk(s.op)
    ensures 4 <= |w.img.data| && 2 * REC_MAX <= w.img.size <= TWO31
    ensures Evolves(w.q, NextWorld(w, s).q)
  {
    RepBounds(w.img, w.q);
    hide Good, Rep, CutQueue, ApplyAll, OpStores;
    DropEvolves(w.q, 0);
    assert Drop(w.q, 0) == w.q;
    match s.op
    case Write(_, _, _, _) => CutEvolves(|w.img.data|, w.q, OpRecord(s.op, w.img.seqNo).value, s.cut);
    case Boot(_, _) => if s.cut > 2 { CutEvolves(|w.img.data|, w.q, OpRecord(s.op, w.img.seqNo).value, s.cut - 2); }
    case Clear =>
  }

  // ---- the cursor against the snapshot ---------------------------------------

  /** The first record of the snapshot at index @p i or later. */
  function FirstRec(es: seq<Entry>, i: nat): (k: nat)
    requires i <= |es|
    ensures i <= k <= |es| && (k < |es| ==> es[k].Rec?)
    ensures forall m :: i <= m < k ==> es[m].Skip?
    decreases |es| - i
  {
    if i == |es| || es[i].Rec? then i else FirstRec(es, i + 1)
  }

  lemma PrefixTail(snap: seq<Entry>, i: nat, es: seq<Entry>)
    requires i < |snap| && snap[i..] <= es
    ensures es != [] && es[0] == snap[i] && snap[i + 1..] <= es[1..]
  {
    assert es[0] == snap[i..][0] && snap[i..][1..] == snap[i + 1..];
  }

  /** The search from a boundary of the snapshot finds the snapshot's next record. */
  lemma {:induction false} FindFollows(es: seq<Entry>, at: nat, q0: Queue, i: nat)
    requires i <= |q0.entries| && Positive(q0.entries)
    requires at == q0.base + TotalLen(q0.entries[..i]) && q0.entries[i..] <= es
    ensures var k := FirstRec(q0.entries, i);
            Find(es, at, at, End(q0)) ==
            if k == |q0.entries| then (End(q0), None)
            else (q0.base + TotalLen(q0.entries[..k + 1]), Some(q0.entries[k].record))
    decreases |q0.entries| - i
  {
    hide TotalLen, Positive;
    var snap := q0.entries;
    if i == |snap| {
      assert snap[..i] == snap;
    } else {
      TotalLenNext(snap, i);
      PrefixTail(snap, i, es);
      PositiveAt(snap, i);
      if snap[i].Skip? {
        FindFollows(es[1..], at + Len(snap[i]), q0, i + 1);
      }
    }
  }

  /** Entries before the cursor are passed over. */
  lemma {:induction false} FindSkips(es: seq<Entry>, at: nat, m: nat, end: nat)
    requires m <= |es| && Positive(es)
    ensures Find(es, at, at + TotalLen(es[..m]), end) == Find(es[m..], at + TotalLen(es[..m]), at + TotalLen(es[..m]), end)
    decreases m
  {
    if m == 0 {
      assert es[0..] == es && es[..0] == [];
    } else {
      assert es[..m][1..] == es[1..][..m - 1];
      assert es[1..][m - 1..] == es[m..];
      FindSkips(es[1..], at + Len(es[0]), m - 1, end);
      var pos := at + TotalLen(es[..m]);
      if pos >= end {
        assert Find(es[m..], pos, pos, end) == (pos, None);
      }
    }
  }

  /** The tail as an index into the snapshot: how many of its entries are gone. */
  ghost predicate TailIndex(q0: Queue, q: Queue, j: nat) {
    if q.base >= End(q0) then j == |q0.entries| else Kept(q0, q, j)
  }

  lemma FindPast(es: seq<Entry>, at: nat, pos: nat, end: nat)
    requires pos >= end
    ensures Find(es, at, pos, end) == (pos, None)
  {
  }

  /** One `log_iter_next` with the cursor at snapshot index @p i while @p j snapshot entries
      have been evicted: it returns the snapshot's first record from max(i, j) on, and
      nothing if there is none left. */
  lemma NextIsSnapshotNext(q0: Queue, q: Queue, i: nat, j: nat)
    requires Evolves(q0, q) && Positive(q0.entries) && Positive(q.entries)
    requires i <= |q0.entries| && j <= |q0.entries| && TailIndex(q0, q, j)
    ensures var k := FirstRec(q0.entries, Max(i, j));
            var (pos, out) := IterNext(q, q0.base + TotalLen(q0.entries[..i]), End(q0));
            if k == |q0.entries| then out == None && pos >= End(q0)
            else pos == q0.base + TotalLen(q0.entries[..k + 1]) && out == Some(q0.entries[k].record)
  {
    hide TotalLen, Len, Find, Positive, FirstRec;
    var snap := q0.entries;
    var p := q0.base + TotalLen(snap[..i]);
    if q.base >= End(q0) {
      NoneAtEnd(snap);
      FindPast(q.entries, q.base, Max(p, q.base), End(q0));
    } else if i <= j {
      LaterOffset(snap, i, j);
      FindFollows(q.entries, q.base, q0, j);
    } else {
      LaterOffset(snap, j, i);
      FindAhead(q0, q, i, j);
    }
  }

  lemma NoneAtEnd(es: seq<Entry>)
    ensures FirstRec(es, |es|) == |es|
  {
  }

  lemma LaterOffset(es: seq<Entry>, i: nat, j: nat)
    requires i <= j <= |es|
    ensures TotalLen(es[..i]) <= TotalLen(es[..j]) <= TotalLen(es)
  {
    TotalLenTake(es, i, j);
  }

  /** The cursor is ahead of the tail: it walks over the entries before it. */
  lemma FindAhead(q0: Queue, q: Queue, i: nat, j: nat)
    requires Positive(q0.entries) && Positive(q.entries) && j < i <= |q0.entries| && Kept(q0, q, j)
    ensures var k := FirstRec(q0.entries, i);
            Find(q.entries, q.base, q0.base + TotalLen(q0.entries[..i]), End(q0)) ==
            if k == |q0.entries| then (End(q0), None)
            else (q0.base + TotalLen(q0.entries[..k + 1]), Some(q0.entries[k].record))
  {
    hide TotalLen, Len, Find, FirstRec, Positive;
    var snap := q0.entries;
    var p := q0.base + TotalLen(snap[..i]);
    TotalLenTake(snap, j, i);
    assert snap[j..i] == snap[j..][..i - j] == q.entries[..i - j];
    FindSkips(q.entries, q.base, i - j, End(q0));
    assert snap[i..] == snap[j..][i - j..] <= q.entries[i - j..];
    FindFollows(q.entries[i - j..], p, q0, i);
  }

  // ---- a whole dmesg pass ----------------------------------------------------

  /** What may happen between `log_iter_start` and the end of a pass: the log changes (an
      append, clear or boot, possibly cut short), or the reader asks for the next record. */
  datatype Event = Change(step: Step) | Next

  ghost predicate EventsOk(evs: seq<Event>) { forall i :: 0 <= i < |evs| && evs[i].Change? ==> OpOk(evs[i].step.op) }

  /** The records a pass returns, given the cursor and the snapshot's end. */
  ghost function Pass(w: World, pos: nat, end: nat, evs: seq<Event>): seq<Record>
    requires Good(w) && EventsOk(evs)
    decreases |evs|
  {
    if evs == [] then []
    else
      match evs[0]
      case Change(s) => StepKeeps(w, s); Pass(NextWorld(w, s), pos, end, evs[1..])
      case Next =>
        var (pos', out) := IterNext(w.q, pos, end);
        (if out.Some? then [out.value] else []) + Pass(w, pos', end, evs[1..])
  }

  /** @p out is the records at strictly increasing indices from @p from on. */
  ghost predicate Picked(out: seq<Record>, es: seq<Entry>, from: nat, idx: seq<nat>) {
    && |idx| == |out|
    && (forall k :: 0 <= k < |idx| ==> from <= idx[k] < |es| && es[idx[k]] == Rec(out[k]))
    && (forall k, l :: 0 <= k < l < |idx| ==> idx[k] < idx[l])
  }

  lemma IndexOfTail(q0: Queue, q: Queue) returns (j: nat)
    requires Evolves(q0, q)
    ensures j <= |q0.entries| && TailIndex(q0, q, j)
  {
    if q.base >= End(q0) {
      j := |q0.entries|;
    } else {
      j :| Kept(q0, q, j);
    }
  }

  /** Past the end of the snapshot a pass returns nothing more. */
  lemma {:induction false} PassOver(w: World, pos: nat, end: nat, evs: seq<Event>)
    requires Good(w) && EventsOk(evs) && pos >= end
    ensures Pass(w, pos, end, evs) == []
    decreases |evs|
  {
    if evs == [] {
    } else {
      match evs[0]
      case Change(s) =>
        StepKeeps(w, s);
        PassOver(NextWorld(w, s), pos, end, evs[1..]);
      case Next =>
        var (pos', out) := IterNext(w.q, pos, end);
        assert pos' >= end && out == None;
        PassOver(w, pos', end, evs[1..]);
    }
  }

  lemma PassNothing(w: World, pos: nat, end: nat)
    requires Good(w)
    ensures Pass(w, pos, end, []) == []
  {
  }

  lemma PassChange(w: World, pos: nat, end: nat, evs: seq<Event>)
    requires Good(w) && EventsOk(evs) && evs != [] && evs[0].Change?
    ensures OpOk(evs[0].step.op) && 4 <= |w.img.data| && 2 * REC_MAX <= w.img.size <= TWO31
    ensures var w' := NextWorld(w, evs[0].step);
            EventsOk(evs[1..]) && Good(w') && Pass(w, pos, end, evs) == Pass(w', pos, end, evs[1..])
  {
    hide Good, NextWorld, OpOk;
    assert EventsOk(evs) && evs[0].Change?;
    StepKeeps(w, evs[0].step);
  }

  lemma PassNext(w: World, pos: nat, end: nat, evs: seq<Event>)
    requires Good(w) && EventsOk(evs) && evs != [] && evs[0].Next?
    ensures EventsOk(evs[1..])
    ensures var (pos', out) := IterNext(w.q, pos, end);
            Pass(w, pos, end, evs) == (if out.Some? then [out.value] else []) + Pass(w, pos', end, evs[1..])
  {
    hide Good, IterNext, OpOk;
  }

  /** However a pass is interleaved with appends, evictions and clears, it returns records
      that were all present when it started, in order and without duplicates. */
  lemma {:induction false} PassIsSubsequence(q0: Queue, w: World, i: nat, evs: seq<Event>) returns (idx: seq<nat>)
    requires Good(w) && EventsOk(evs) && Evolves(q0, w.q) && Positive(q0.entries) && i <= |q0.entries|
    ensures Picked(Pass(w, q0.base + TotalLen(q0.entries[..i]), End(q0), evs), q0.entries, i, idx)
    decreases |evs|
  {
    hide Good, Evolves, Find, Positive, TotalLen, TailIndex, IterNext, NextWorld, Picked, OpOk, Records, End, Pass, EventsOk;
    var pos := q0.base + TotalLen(q0.entries[..i]);
    idx := [];
    if evs == [] {
      PassNothing(w, pos, End(q0));
      PickedNone(q0.entries, i);
    } else if evs[0].Change? {
      PassChange(w, pos, End(q0), evs);
      QueuePositive(w);
      StepEvolves(w, evs[0].step);
      EvolvesTrans(q0, w.q, NextWorld(w, evs[0].step).q);
      idx := PassIsSubsequence(q0, NextWorld(w, evs[0].step), i, evs[1..]);
    } else {
      PassNext(w, pos, End(q0), evs);
      QueuePositive(w);
      var j := IndexOfTail(q0, w.q);
      NextIsSnapshotNext(q0, w.q, i, j);
      var k := FirstRec(q0.entries, Max(i, j));
      var next := IterNext(w.q, pos, End(q0)).0;
      if k == |q0.entries| {
        PassOver(w, next, End(q0), evs[1..]);
        PickedNone(q0.entries, i);
      } else {
        var rest := PassIsSubsequence(q0, w, k + 1, evs[1..]);
        idx := [k] + rest;
        PickedNext(Pass(w, next, End(q0), evs[1..]), q0.entries, i, k, rest);
      }
    }
  }

  lemma PickedNone(es: seq<Entry>, i: nat)
    ensures Picked([], es, i, [])
  {
  }

  lemma PickedNext(out: seq<Record>, es: seq<Entry>, i: nat, k: nat, rest: seq<nat>)
    requires i <= k < |es| && es[k].Rec? && Picked(out, es, k + 1, rest)
    ensures Picked([es[k].record] + out, es, i, [k] + rest)
  {
  }

  lemma QueuePositive(w: World)
    requires Good(w)
    ensures Positive(w.q.entries)
  {
    hide EntryAt, Phys, Numbered;
    HoldsPositive(w.img.data, Phys(|w.img.data|, w.q.base), w.q.entries);
  }

  /** The pass `log_iter_start` begins: the cursor at the tail, the end at the head. */
  lemma DmesgPass(w: World, evs: seq<Event>) returns (idx: seq<nat>)
    requires Good(w) && EventsOk(evs)
    ensures Picked(Pass(w, w.q.base, End(w.q), evs), w.q.entries, 0, idx)
    ensures |Pass(w, w.q.base, End(w.q), evs)| <= |w.q.entries|
  {
    hide Good, Pass, Positive, Evolves;
    QueuePositive(w);
    DropEvolves(w.q, 0);
    assert Drop(w.q, 0) == w.q && w.q.entries[..0] == [];
    idx := PassIsSubsequence(w.q, w, 0, evs);
    Pigeonhole(idx, |w.q.entries|);
  }

  lemma {:induction false} Pigeonhole(idx: seq<nat>, n: nat)
    requires forall k :: 0 <= k < |idx| ==> idx[k] < n
    requires forall k, l :: 0 <= k < l < |idx| ==> idx[k] < idx[l]
    ensures |idx| <= n
  {
    if idx == [] {
    } else {
      Pigeonhole(idx[..|idx| - 1], idx[|idx| - 1]);
    }
  }
}
