/** Whole lives of the log ring: appends, clears and boots, each of which may be cut short
    by a reset between any two of its stores (svc/log.c). */
module LogRuns {
  import opened Machine
  import opened LogRecord
  import opened LogRing
  import opened LogAppend
  import opened LogBoot

  // ---- operations and their stores -----------------------------------------

  datatype Op = Write(level: byte, ts: u32, tag: seq<byte>, text: seq<byte>) | Clear | Boot(ts: u32, text: seq<byte>)

  const LEVEL_INF: byte := 2

  /** The bytes of the tag "boot". */
  const BOOT_TAG: seq<byte> := [98, 111, 111, 116]

  predicate OpOk(op: Op) {
    match op
    case Write(level, _, _, text) => level <= LEVEL_DBG && |text| <= MSG_MAX
    case Clear => true
    case Boot(_, text) => |text| <= MSG_MAX
  }

  function OpRecord(op: Op, seqNo: u32): Option<Record>
    requires OpOk(op)
  {
    match op
    case Write(level, ts, tag, text) => Some(MakeRecord(level, ts, seqNo, tag, text))
    case Clear => None
    case Boot(ts, text) => Some(MakeRecord(LEVEL_INF, ts, seqNo, BOOT_TAG, text))
  }

  function BootStores(img: Image): seq<Store>
    requires 4 <= |img.data| && img.size <= TWO31
  {
    [SetHead(Walk(img, img.tail)), SetBoots(Add32(img.bootCount, 1))]
  }

  function Booted(img: Image): Image
    requires 4 <= |img.data| && img.size <= TWO31
  {
    img.(head := Walk(img, img.tail), bootCount := Add32(img.bootCount, 1))
  }

  /** The stores of an operation in program order. */
  function OpStores(img: Image, op: Op): seq<Store>
    requires 4 <= |img.data| && 2 * REC_MAX <= img.size <= TWO31 && OpOk(op)
  {
    match op
    case Write(_, _, _, _) => WriteStores(img, OpRecord(op, img.seqNo).value)
    case Clear => [SetTail(img.head)]
    case Boot(_, _) =>
      BootStores(img) + WriteStores(Booted(img), OpRecord(op, img.seqNo).value)
  }

  // ---- the world: memory, the queue it stands for, and everything ever logged ----

  /** @p log lists every record whose append completed, oldest first, each with its
      never-wrapping number; @p issued is the number the next append will use. */
  datatype World = World(img: Image, q: Queue, log: seq<(nat, Record)>, issued: nat)

  /** An operation together with how many of its stores happen before a reset; a count
      past the end means it completes. */
  datatype Step = Step(op: Op, cut: nat)

  function StoresDone(img: Image, s: Step): seq<Store>
    requires 4 <= |img.data| && 2 * REC_MAX <= img.size <= TWO31 && OpOk(s.op)
  {
    var ss := OpStores(img, s.op);
    if s.cut < |ss| then ss[..s.cut] else ss
  }

  /** The bookkeeping of one append cut after @p k of its stores. */
  function AppendWorld(w: World, img': Image, r: Record, k: nat): World
    requires 0 < |w.img.data|
  {
    var n, len := |w.img.data|, WriteLen(|w.img.data|, w.q, r);
    World(img', CutQueue(n, w.q, r, k),
          if k >= len then w.log + [(w.issued, r)] else w.log,
          if k >= len - 1 then w.issued + 1 else w.issued)
  }

  function NextWorld(w: World, s: Step): World
    requires 4 <= |w.img.data| && 2 * REC_MAX <= w.img.size <= TWO31 && OpOk(s.op)
  {
    var img' := ApplyAll(w.img, StoresDone(w.img, s));
    match s.op
    case Clear => if s.cut == 0 then w.(img := img') else w.(img := img', q := Queue(End(w.q), []))
    case Write(_, _, _, _) => AppendWorld(w, img', OpRecord(s.op, w.img.seqNo).value, s.cut)
    case Boot(_, _) =>
      if s.cut <= 2 then w.(img := img') else AppendWorld(w, img', OpRecord(s.op, w.img.seqNo).value, s.cut - 2)
  }

  function Seconds(log: seq<(nat, Record)>): (rs: seq<Record>)
    ensures |rs| == |log|
  {
    seq(|log|, i requires 0 <= i < |log| => log[i].1)
  }

  predicate IsSuffix<T(==)>(a: seq<T>, b: seq<T>) { |a| <= |b| && b[|b| - |a|..] == a }

  /** What every reachable world satisfies: the memory stands for the queue, the visible
      records are the newest of everything ever logged, and sequence numbers only grow. */
  ghost predicate Good(w: World) {
    && Rep(w.img, w.q)
    && IsSuffix(Records(w.q.entries), Seconds(w.log))
    && w.img.seqNo == w.issued % TWO32
    && Numbered(w.log, w.issued)
  }

  /** The log's numbers grow, stay below the next one, and show modulo 2^32. */
  ghost predicate Numbered(log: seq<(nat, Record)>, issued: nat) {
    && (forall i :: 0 <= i < |log| ==> log[i].0 < issued && log[i].1.seqNo == log[i].0 % TWO32)
    && (forall i, j :: 0 <= i < j < |log| ==> log[i].0 < log[j].0)
  }

  lemma NumberedNext(log: seq<(nat, Record)>, issued: nat, r: Record)
    requires Numbered(log, issued) && r.seqNo == issued % TWO32
    ensures Numbered(log, issued + 1) && Numbered(log + [(issued, r)], issued + 1)
    ensures Seconds(log + [(issued, r)]) == Seconds(log) + [r]
  {
  }

  // ---- one step --------------------------------------------------------------

  lemma {:induction false} RecordsDrop(es: seq<Entry>, k: nat)
    requires k <= |es|
    ensures IsSuffix(Records(es[k..]), Records(es))
  {
    assert es == es[..k] + es[k..];
    RecordsConcat(es[..k], es[k..]);
  }

  lemma SuffixTrans<T>(a: seq<T>, b: seq<T>, c: seq<T>)
    requires IsSuffix(a, b) && IsSuffix(b, c)
    ensures IsSuffix(a, c)
  {
    assert c[|c| - |a|..] == c[|c| - |b|..][|b| - |a|..];
  }

  lemma RecordsPush(q: Queue, e: Entry)
    ensures Records(Push(q, e).entries) == Records(q.entries) + (if e.Rec? then [e.record] else [])
  {
    RecordsConcat(q.entries, [e]);
    assert [e][1..] == [];
  }

  /** The visible records after a cut append: a suffix of the old ones, and the new one
      exactly when the last store was reached. */
  lemma CutRecords(n: nat, q: Queue, r: Record, k: nat)
    requires 0 < n
    ensures var now := Records(CutQueue(n, q, r, k).entries);
            if k >= WriteLen(n, q, r)
            then now != [] && now[|now| - 1] == r && IsSuffix(now[..|now| - 1], Records(q.entries))
            else IsSuffix(now, Records(q.entries))
  {
    hide SkipBefore, EvictCount, TotalLen, Records, Phys;
    var skip := SkipBefore(n, End(q) % TWO32, RecLen(r));
    var j := EvictCount(n, q.entries, skip + RecLen(r));
    RecordsDrop(q.entries, Min(k, j));
    var q1 := Drop(q, j);
    var q2 := if skip > 0 && k >= j + 5 then Push(q1, Skip(skip)) else q1;
    RecordsPush(q1, Skip(skip));
    RecordsPush(q2, Rec(r));
    var a := Records(q2.entries);
    assert (a + [r])[..|a|] == a;
  }

  lemma AppendKeeps(w: World, r: Record, k: nat)
    requires Good(w) && RecordOk(r) && r.seqNo == w.img.seqNo
    ensures var ws := WriteStores(w.img, r);
            var w' := AppendWorld(w, ApplyAll(w.img, if k < |ws| then ws[..k] else ws), r, k);
            && Good(w') && |w'.img.data| == |w.img.data|
            && (k >= WriteLen(|w.img.data|, w.q, r) <==> w'.log != w.log)
  {
    hide Rep, CutQueue, WriteStores, ApplyAll, Records, Phys, RecordOk, Numbered, Seconds, IsSuffix, EvictCount, SkipBefore;
    RepBounds(w.img, w.q);
    var ws := WriteStores(w.img, r);
    var m := if k < |ws| then k else |ws|;
    assert ws[..m] == if k < |ws| then ws[..k] else ws;
    WriteCut(w.img, w.q, r, m);
    CutStable(|w.img.data|, w.q, r, m, k);
    CutRecords(|w.img.data|, w.q, r, k);
    WordOffsets(w.issued, 1);
    NumberedNext(w.log, w.issued, r);
    var before, now := Records(w.q.entries), Records(CutQueue(|w.img.data|, w.q, r, k).entries);
    if k >= |ws| {
      SuffixTrans(now[..|now| - 1], before, Seconds(w.log));
      SuffixGrows(now, r, Seconds(w.log));
    } else {
      SuffixTrans(now, before, Seconds(w.log));
    }
  }

  lemma SuffixGrows<T>(a: seq<T>, x: T, b: seq<T>)
    requires a != [] && a[|a| - 1] == x && IsSuffix(a[..|a| - 1], b)
    ensures IsSuffix(a, b + [x])
  {
    assert (b + [x])[|b| + 1 - |a|..] == b[|b| - (|a| - 1)..] + [x];
    assert a == a[..|a| - 1] + [x];
  }

  /** Past the last store nothing more happens. */
  lemma CutStable(n: nat, q: Queue, r: Record, m: nat, k: nat)
    requires 0 < n && (m == k || (WriteLen(n, q, r) <= m <= k))
    ensures CutQueue(n, q, r, m) == CutQueue(n, q, r, k)
  {
  }

  /** Any one operation, cut anywhere, keeps the invariant. */
  lemma StepKeeps(w: World, s: Step)
    requires Good(w) && OpOk(s.op)
    ensures 4 <= |w.img.data| && 2 * REC_MAX <= w.img.size <= TWO31
    ensures Good(NextWorld(w, s)) && |NextWorld(w, s).img.data| == |w.img.data|
  {
    hide Good, AppendWorld, WriteStores, BootStores, ApplyAll;
    assert Rep(w.img, w.q) by { GoodRep(w); }
    RepBounds(w.img, w.q);
    match s.op
    case Write(_, _, _, _) =>
      AppendKeeps(w, OpRecord(s.op, w.img.seqNo).value, s.cut);
    case Clear =>
      ClearKeeps(w, s.cut);
    case Boot(_, _) =>
      BootKeeps(w, OpRecord(s.op, w.img.seqNo).value, s.cut);
  }

  lemma GoodRep(w: World)
    requires Good(w)
    ensures Rep(w.img, w.q)
  {
  }

  lemma ClearKeeps(w: World, cut: nat)
    requires Good(w)
    ensures var s := [SetTail(w.img.head)];
            var img' := ApplyAll(w.img, if cut < 1 then s[..cut] else s);
            && Good(if cut == 0 then w.(img := img') else w.(img := img', q := Queue(End(w.q), [])))
            && |img'.data| == |w.img.data|
  {
    hide EntryAt, Phys, Numbered, ApplyAll, Seconds, Records;
    ApplyOne(w.img, SetTail(w.img.head));
    ClearRep(w.img, w.q);
    EmptyRecords();
    assert Seconds(w.log)[|w.log|..] == [];
  }

  /** With the tail at the head the memory stands for the empty queue. */
  lemma ClearRep(img: Image, q: Queue)
    requires Rep(img, q)
    ensures Rep(img.(tail := img.head), Queue(End(q), []))
  {
    hide EntryAt, Phys, Geometry;
    EndAligned(img, q);
  }

  lemma EmptyRecords()
    ensures Records([]) == []
  {
  }

  lemma BootKeeps(w: World, r: Record, cut: nat)
    requires Good(w) && RecordOk(r) && r.seqNo == w.img.seqNo
    requires 4 <= |w.img.data| && 2 * REC_MAX <= w.img.size <= TWO31
    ensures var ss := BootStores(w.img) + WriteStores(Booted(w.img), r);
            var img' := ApplyAll(w.img, if cut < |ss| then ss[..cut] else ss);
            var w' := if cut <= 2 then w.(img := img') else AppendWorld(w, img', r, cut - 2);
            Good(w') && |w'.img.data| == |w.img.data|
  {
    hide Good, AppendWorld, WriteStores, BootStores, ApplyAll, Walk, RecordOk;
    var w1 := w.(img := Booted(w.img));
    BootedGood(w);
    BootDone(w.img, r, cut);
    if cut > 2 {
      var ws := WriteStores(w1.img, r);
      AppendKeeps(w1, r, cut - 2);
      SameAppend(w, w1, ApplyAll(w1.img, if cut - 2 < |ws| then ws[..cut - 2] else ws), r, cut - 2);
    }
  }

  /** The boot's own two stores come first, then the marker's. */
  lemma BootDone(img: Image, r: Record, cut: nat)
    requires 4 <= |img.data| && 2 * REC_MAX <= img.size <= TWO31 && RecordOk(r) && Walk(img, img.tail) == img.head
    ensures var ws := WriteStores(Booted(img), r);
            var ss := BootStores(img) + ws;
            ApplyAll(img, if cut < |ss| then ss[..cut] else ss) ==
            if cut < 2 then img else if cut == 2 then Booted(img)
            else ApplyAll(Booted(img), if cut - 2 < |ws| then ws[..cut - 2] else ws)
  {
    hide WriteStores, BootStores, ApplyAll, Walk, RecordOk;
    var bs, ws := BootStores(img), WriteStores(Booted(img), r);
    BootPrefix(img, Min(cut, 2));
    BootPrefix(img, 2);
    assert bs[..2] == bs;
    ApplyPrefix(img, bs, ws, Min(cut, 2 + |ws|));
    assert (bs + ws)[..2 + |ws|] == bs + ws && ws[..|ws|] == ws;
    if ws == [] {
      ApplyOne(Booted(img), SetBoots(0));
    }
  }

  /** Booting changes no field the bookkeeping of an append looks at. */
  lemma SameAppend(w: World, w1: World, img': Image, r: Record, k: nat)
    requires 0 < |w.img.data| && w1 == w.(img := w1.img) && |w1.img.data| == |w.img.data|
    ensures AppendWorld(w1, img', r, k) == AppendWorld(w, img', r, k)
  {
  }

  /** The boot walk leaves a good ring as it is. */
  lemma BootedGood(w: World)
    requires Good(w)
    ensures 4 <= |w.img.data| && w.img.size <= TWO31 && Walk(w.img, w.img.tail) == w.img.head
    ensures Good(w.(img := Booted(w.img)))
  {
    hide Walk, Holds, Phys, Numbered;
    RepIsValid(w.img, w.q);
    RepBounds(w.img, w.q);
  }

  lemma BootPrefix(img: Image, k: nat)
    requires 4 <= |img.data| && img.size <= TWO31 && Walk(img, img.tail) == img.head && k <= 2
    ensures |BootStores(img)| == 2
    ensures ApplyAll(img, BootStores(img)[..k]) == if k == 2 then Booted(img) else img
  {
    hide Walk;
    var bs := BootStores(img);
    assert bs == [bs[0]] + [bs[1]];
    ApplyPrefix(img, [bs[0]], [bs[1]], k);
    ApplyOne(img, bs[0]);
    ApplyOne(img, bs[1]);
    assert [bs[0]][..1] == [bs[0]] && [bs[1]][..1] == [bs[1]];
  }

  // ---- whole runs ------------------------------------------------------------

  ghost function Run(w: World, steps: seq<Step>): World
    requires Good(w) && forall i :: 0 <= i < |steps| ==> OpOk(steps[i].op)
    ensures Good(Run(w, steps))
    decreases |steps|
  {
    if steps == [] then w else
    StepKeeps(w, steps[0]);
    Run(NextWorld(w, steps[0]), steps[1..])
  }

  /** The never-wrapping number of the @p i-th visible record. */
  function NumberOf(w: World, i: nat): nat
    requires i < |Records(w.q.entries)| <= |w.log|
  {
    w.log[|w.log| - |Records(w.q.entries)| + i].0
  }

  lemma VisibleNumber(w: World, i: nat)
    requires Good(w) && i < |Records(w.q.entries)|
    ensures |Records(w.q.entries)| <= |w.log|
    ensures Records(w.q.entries)[i].seqNo == NumberOf(w, i) % TWO32 && NumberOf(w, i) < w.issued
  {
    hide Rep, Records;
    var shift := |w.log| - |Records(w.q.entries)|;
    assert Seconds(w.log)[shift..][i] == w.log[shift + i].1;
  }

  /** Two visible records carry the same sequence number exactly if a positive multiple of
      2^32 numbers separates them; so never while fewer than 2^32 do. */
  lemma NeverRepeats(w: World, i: nat, j: nat)
    requires Good(w) && i < j < |Records(w.q.entries)|
    ensures |Records(w.q.entries)| <= |w.log| && NumberOf(w, i) < NumberOf(w, j)
    ensures Records(w.q.entries)[i].seqNo == Records(w.q.entries)[j].seqNo <==>
            (NumberOf(w, j) - NumberOf(w, i)) % TWO32 == 0
    ensures NumberOf(w, j) - NumberOf(w, i) < TWO32 ==> Records(w.q.entries)[i].seqNo != Records(w.q.entries)[j].seqNo
  {
    VisibleNumber(w, i);
    VisibleNumber(w, j);
    assert NumberOf(w, i) < NumberOf(w, j) by { NumbersRise(w, i, j); }
    SameWord(NumberOf(w, i), NumberOf(w, j));
  }

  lemma NumbersRise(w: World, i: nat, j: nat)
    requires Good(w) && i < j < |Records(w.q.entries)| <= |w.log|
    ensures NumberOf(w, i) < NumberOf(w, j)
  {
    hide Rep, Records;
  }

  lemma SameWord(a: nat, b: nat)
    requires a < b
    ensures a % TWO32 == b % TWO32 <==> (b - a) % TWO32 == 0
    ensures b - a < TWO32 ==> (b - a) % TWO32 != 0
  {
  }

  /** What one append, cut after @p k stores, makes visible. */
  ghost predicate SeenAfter(before: seq<Record>, now: seq<Record>, r: Record, committed: bool) {
    if committed
    then now != [] && now[|now| - 1] == r && IsSuffix(now[..|now| - 1], before)
    else IsSuffix(now, before)
  }

  lemma WriteSeen(w: World, write: Op, k: nat)
    requires Good(w) && write.Write? && OpOk(write)
    ensures 4 <= |w.img.data| && 2 * REC_MAX <= w.img.size <= TWO31
    ensures SeenAfter(Records(w.q.entries), Records(NextWorld(w, Step(write, k)).q.entries),
                      OpRecord(write, w.img.seqNo).value, k >= |OpStores(w.img, write)|)
  {
    hide Good, WriteStores, Records, CutQueue, WriteLen, ApplyAll, RecordOk;
    var r := OpRecord(write, w.img.seqNo).value;
    StoreCount(w, r);
    CutRecords(|w.img.data|, w.q, r, k);
  }

  lemma BootSeen(w: World, boot: Op, k: nat)
    requires Good(w) && boot.Boot? && OpOk(boot)
    ensures 4 <= |w.img.data| && 2 * REC_MAX <= w.img.size <= TWO31
    ensures SeenAfter(Records(w.q.entries), Records(NextWorld(w, Step(boot, k)).q.entries),
                      OpRecord(boot, w.img.seqNo).value, k >= |OpStores(w.img, boot)|)
  {
    BootedGood(w);
    hide Good, WriteStores, Records, CutQueue, WriteLen, ApplyAll, Walk, RecordOk;
    var m := OpRecord(boot, w.img.seqNo).value;
    StoreCount(w.(img := Booted(w.img)), m);
    hide IsSuffix, OpRecord;
    if k > 2 {
      CutRecords(|w.img.data|, w.q, m, k - 2);
    } else {
      SuffixSelf(Records(w.q.entries));
    }
  }

  lemma SuffixSelf<T>(a: seq<T>)
    ensures IsSuffix(a, a)
  {
  }

  // ---- the boot marker and the newest record ---------------------------------------

  lemma {:induction false} TotalAtLeastLast(es: seq<Entry>, j: nat)
    requires j < |es|
    ensures TotalLen(es[j..]) >= Len(es[|es| - 1])
    decreases |es| - j
  {
    if j == |es| - 1 {
      assert es[j..][1..] == [];
    } else {
      TotalAtLeastLast(es, j + 1);
      assert es[j..][1..] == es[j + 1..];
    }
  }

  /** What a further append of @p m makes room with: the SKIP, if any, is shorter than the
      record that causes it. */
  function NeedFor(n: nat, q: Queue, m: Record): (need: nat)
    requires 0 < n
    ensures RecLen(m) <= need < 2 * RecLen(m)
  {
    var o := Phys(n, End(q) % TWO32);
    SkipBefore(n, End(q) % TWO32, RecLen(m)) + RecLen(m)
  }

  /** An append of @p m spares the newest entry exactly if the ring holds that entry and
      what the append needs. */
  lemma NewestSpared(n: nat, q: Queue, m: Record)
    requires 2 * REC_MAX <= n && RecordOk(m) && q.entries != []
    ensures EvictCount(n, q.entries, NeedFor(n, q, m)) < |q.entries| <==>
            n - Len(q.entries[|q.entries| - 1]) >= NeedFor(n, q, m)
  {
    hide EvictCount, TotalLen, SkipBefore, NeedFor, Len, Phys;
    var es, need := q.entries, NeedFor(n, q, m);
    EvictCountLeast(n, es, need);
    var j, last := EvictCount(n, es, need), |es| - 1;
    if j < |es| {
      TotalAtLeastLast(es, j);
    } else {
      LastAlone(es);
    }
  }

  lemma LastAlone(es: seq<Entry>)
    requires es != []
    ensures TotalLen(es[|es| - 1..]) == Len(es[|es| - 1])
  {
    assert es[|es| - 1..][1..] == [];
  }

  /** After a complete append of @p m the newest record before it is still the one before the
      last - or else @p m is alone. */
  lemma AppendedSeen(n: nat, q: Queue, m: Record)
    requires 2 * REC_MAX <= n && RecordOk(m) && q.entries != [] && q.entries[|q.entries| - 1].Rec?
    ensures var seen := Records(Appended(n, q, m).entries);
            var r := q.entries[|q.entries| - 1].record;
            if n - RecLen(r) >= NeedFor(n, q, m) then |seen| >= 2 && seen[|seen| - 2] == r else seen == [m]
  {
    hide EvictCount, SkipBefore, TotalLen, Phys;
    var skip := SkipBefore(n, End(q) % TWO32, RecLen(m));
    var j := EvictCount(n, q.entries, NeedFor(n, q, m));
    NewestSpared(n, q, m);
    var q1 := Drop(q, j);
    RecordsPush(q1, Skip(skip));
    RecordsPush(if skip > 0 then Push(q1, Skip(skip)) else q1, Rec(m));
    if j < |q.entries| {
      LastRecord(q.entries, j);
    } else {
      EmptyRecords();
    }
  }

  lemma LastRecord(es: seq<Entry>, j: nat)
    requires j < |es| && es[|es| - 1].Rec?
    ensures var rs := Records(es[j..]); rs != [] && rs[|rs| - 1] == es[|es| - 1].record
  {
    var k := |es| - 1;
    assert es[j..] == es[j..k] + [es[k]];
    RecordsConcat(es[j..k], [es[k]]);
    assert [es[k]][1..] == [];
  }

  /** The marker's text, "#<count> reset cause: <name>": at most ten digits and a name of at
      most four letters. */
  const MARKER_TEXT_MAX := 29

  /** The committed record outlives the boot marker exactly if the ring holds both and the
      SKIP between them. It always does for the text log_init writes, on every legal ring;
      and for any text on a ring of three maximal records. */
  lemma CommittedSurvives(w: World, write: Op, k: nat, boot: Op, all: nat) returns (w1: World, w2: World)
    requires Good(w) && write.Write? && OpOk(write) && boot.Boot? && OpOk(boot)
    ensures 4 <= |w.img.data| && 2 * REC_MAX <= w.img.size <= TWO31 && w1 == NextWorld(w, Step(write, k))
    ensures 4 <= |w1.img.data| && 2 * REC_MAX <= w1.img.size <= TWO31 && w2 == NextWorld(w1, Step(boot, all))
    ensures k >= |OpStores(w.img, write)| && all >= |OpStores(w1.img, boot)| ==>
              var new1 := OpRecord(write, w.img.seqNo).value;
              var marker := OpRecord(boot, w1.img.seqNo).value;
              var seen := Records(w2.q.entries);
              var fits := |w.img.data| - RecLen(new1) >= NeedFor(|w.img.data|, w1.q, marker);
              && (if fits then |seen| >= 2 && seen[|seen| - 2] == new1 else seen == [marker])
              && (|boot.text| <= MARKER_TEXT_MAX || |w.img.data| >= 3 * REC_MAX ==> fits)
  {
    hide NextWorld, OpStores, Good, Records, Appended, NeedFor, OpRecord;
    StepKeeps(w, Step(write, k));
    w1 := NextWorld(w, Step(write, k));
    StepKeeps(w1, Step(boot, all));
    w2 := NextWorld(w1, Step(boot, all));
    if k >= |OpStores(w.img, write)| && all >= |OpStores(w1.img, boot)| {
      RecordSizes(write, w.img.seqNo);
      RecordSizes(boot, w1.img.seqNo);
      WholeWrite(w, write, k);
      WholeBoot(w1, boot, all);
      AppendedSeen(|w.img.data|, w1.q, OpRecord(boot, w1.img.seqNo).value);
    }
  }

  lemma RecordSizes(op: Op, seqNo: u32)
    requires OpOk(op) && !op.Clear?
    ensures OpRecord(op, seqNo).Some? && RecordOk(OpRecord(op, seqNo).value)
    ensures RecLen(OpRecord(op, seqNo).value) <= REC_MAX && OpRecord(op, seqNo).value.seqNo == seqNo
    ensures op.Boot? && |op.text| <= MARKER_TEXT_MAX ==> RecLen(OpRecord(op, seqNo).value) <= 52
  {
  }

  /** A complete write appends its record as the last entry. */
  lemma WholeWrite(w: World, write: Op, k: nat)
    requires Good(w) && write.Write? && OpOk(write)
    ensures 4 <= |w.img.data| && 2 * REC_MAX <= w.img.size <= TWO31 && 2 * REC_MAX <= |w.img.data|
    ensures k >= |OpStores(w.img, write)| ==>
              var w1 := NextWorld(w, Step(write, k));
              w1.q == Appended(|w.img.data|, w.q, OpRecord(write, w.img.seqNo).value) && w1.q.entries != []
              && w1.q.entries[|w1.q.entries| - 1] == Rec(OpRecord(write, w.img.seqNo).value)
  {
    hide Good, WriteStores, CutQueue, WriteLen, ApplyAll, RecordOk, EvictCount, SkipBefore;
    var r := OpRecord(write, w.img.seqNo).value;
    StoreCount(w, r);
    CutWhole(|w.img.data|, w.q, r);
    CutStable(|w.img.data|, w.q, r, if k >= WriteLen(|w.img.data|, w.q, r) then WriteLen(|w.img.data|, w.q, r) else k, k);
  }

  lemma WholeBoot(w: World, boot: Op, k: nat)
    requires Good(w) && boot.Boot? && OpOk(boot)
    ensures 4 <= |w.img.data| && 2 * REC_MAX <= w.img.size <= TWO31
    ensures k >= |OpStores(w.img, boot)| ==>
              NextWorld(w, Step(boot, k)).q == Appended(|w.img.data|, w.q, OpRecord(boot, w.img.seqNo).value)
  {
    BootedGood(w);
    hide Good, WriteStores, CutQueue, WriteLen, ApplyAll, Walk, RecordOk, Appended;
    var m := OpRecord(boot, w.img.seqNo).value;
    StoreCount(w.(img := Booted(w.img)), m);
    CutWhole(|w.img.data|, w.q, m);
    var len := WriteLen(|w.img.data|, w.q, m);
    CutStable(|w.img.data|, w.q, m, if k - 2 >= len then len else Max0(k - 2), Max0(k - 2));
  }

  function Max0(x: int): nat { if x < 0 then 0 else x }

  /** Reset a write after any @p k of its stores, then boot: what precedes the marker is a
      suffix of the old records and, if its head store was reached, the new one. */
  lemma CrashSuffix(w: World, write: Op, k: nat, boot: Op, all: nat) returns (w1: World, w2: World)
    requires Good(w) && write.Write? && OpOk(write) && boot.Boot? && OpOk(boot)
    ensures 4 <= |w.img.data| && 2 * REC_MAX <= w.img.size <= TWO31 && w1 == NextWorld(w, Step(write, k))
    ensures 4 <= |w1.img.data| && 2 * REC_MAX <= w1.img.size <= TWO31 && w2 == NextWorld(w1, Step(boot, all))
    ensures Good(w1) && Good(w2)
    ensures all >= |OpStores(w1.img, boot)| ==>
              var seen := Records(w2.q.entries);
              && seen != [] && seen[|seen| - 1] == OpRecord(boot, w1.img.seqNo).value
              && IsSuffix(seen[..|seen| - 1], Records(w.q.entries) +
                   if k >= |OpStores(w.img, write)| then [OpRecord(write, w.img.seqNo).value] else [])
  {
    hide NextWorld, OpStores, Good, Records, IsSuffix;
    StepKeeps(w, Step(write, k));
    WriteSeen(w, write, k);
    w1 := NextWorld(w, Step(write, k));
    StepKeeps(w1, Step(boot, all));
    BootSeen(w1, boot, all);
    w2 := NextWorld(w1, Step(boot, all));
    var before, now, seen := Records(w.q.entries), Records(w1.q.entries), Records(w2.q.entries);
    if all >= |OpStores(w1.img, boot)| {
      if k >= |OpStores(w.img, write)| {
        SuffixGrows(now, OpRecord(write, w.img.seqNo).value, before);
        SuffixTrans(seen[..|seen| - 1], now, before + [OpRecord(write, w.img.seqNo).value]);
      } else {
        SuffixTrans(seen[..|seen| - 1], now, before);
        assert before + [] == before;
      }
    }
  }

  /** Fewer than 2^32 numbers lie between any visible record and the next number. */
  ghost predicate WithinWord(w: World) {
    |Records(w.q.entries)| <= |w.log| && forall i: nat :: i < |Records(w.q.entries)| ==> w.issued - NumberOf(w, i) < TWO32
  }

  /** Short of a 32-bit wrap no visible record carries the next number. */
  lemma NextIsUnused(w: World, x: Record)
    requires Good(w) && WithinWord(w) && x in Records(w.q.entries)
    ensures x.seqNo != w.img.seqNo
  {
    hide Rep, Records;
    var i: nat :| i < |Records(w.q.entries)| && Records(w.q.entries)[i] == x;
    VisibleNumber(w, i);
    SameWord(NumberOf(w, i), w.issued);
  }

  lemma SuffixMember<T>(a: seq<T>, b: seq<T>, x: T)
    requires IsSuffix(a, b) && x in a
    ensures x in b
  {
  }

  /** Crash consistency: reset a write after any @p k of its stores, then boot. What is
      visible ends with the marker; before it stands a suffix of the old records; and, with
      the marker text log_init writes or a ring of three maximal records, the new record
      stands right before the marker if and only if its head store was reached. In general a
      committed record stands there if and only if the ring holds it, the SKIP and the
      marker; otherwise the marker is alone. */
  lemma CrashConsistency(w: World, write: Op, k: nat, boot: Op, all: nat) returns (w1: World, w2: World)
    requires Good(w) && write.Write? && OpOk(write) && boot.Boot? && OpOk(boot)
    ensures 4 <= |w.img.data| && 2 * REC_MAX <= w.img.size <= TWO31 && w1 == NextWorld(w, Step(write, k))
    ensures 4 <= |w1.img.data| && 2 * REC_MAX <= w1.img.size <= TWO31 && w2 == NextWorld(w1, Step(boot, all))
    ensures Good(w1) && Good(w2)
    ensures all >= |OpStores(w1.img, boot)| ==>
              var new1 := OpRecord(write, w.img.seqNo).value;
              var marker := OpRecord(boot, w1.img.seqNo).value;
              var committed := k >= |OpStores(w.img, write)|;
              var fits := |w.img.data| - RecLen(new1) >= NeedFor(|w.img.data|, w1.q, marker);
              var seen := Records(w2.q.entries);
              && seen != [] && seen[|seen| - 1] == marker
              && IsSuffix(seen[..|seen| - 1], Records(w.q.entries) + if committed then [new1] else [])
              && (committed ==> if fits then |seen| >= 2 && seen[|seen| - 2] == new1 else seen == [marker])
              && (|boot.text| <= MARKER_TEXT_MAX || |w.img.data| >= 3 * REC_MAX ==> fits || !committed)
              && (WithinWord(w) && (|boot.text| <= MARKER_TEXT_MAX || |w.img.data| >= 3 * REC_MAX) ==>
                    (|seen| >= 2 && seen[|seen| - 2] == new1 <==> committed))
  {
    hide NextWorld, OpStores, Good, Records, IsSuffix, NeedFor, OpRecord, WithinWord;
    w1, w2 := CrashSuffix(w, write, k, boot, all);
    var a, b := CommittedSurvives(w, write, k, boot, all);
    RecordSizes(write, w.img.seqNo);
    var new1, seen := OpRecord(write, w.img.seqNo).value, Records(w2.q.entries);
    if all >= |OpStores(w1.img, boot)| && k < |OpStores(w.img, write)| && WithinWord(w) && |seen| >= 2 && seen[|seen| - 2] == new1 {
      assert seen[..|seen| - 1][|seen| - 2] == new1;
      assert Records(w.q.entries) + [] == Records(w.q.entries);
      SuffixMember(seen[..|seen| - 1], Records(w.q.entries), new1);
      NextIsUnused(w, new1);
    }
  }

  lemma AppendTo(n: nat, q: Queue, r: Record)
    requires 2 * REC_MAX <= n && RecordOk(r) && TotalLen(q.entries) + RecLen(r) <= n
    requires End(q) < TWO32 && Phys(n, End(q)) + RecLen(r) <= n
    ensures Appended(n, q, r) == q.(entries := q.entries + [Rec(r)])
  {
    hide Phys;
    assert q.entries[..0] == [] && q.entries[0..] == q.entries;
  }

  /** The condition can fail: on the smallest legal ring, a 24-byte and a 128-byte record, and
      then an entry of 128 bytes, which a boot marker could only be with a text longer than
      log_init writes. */
  lemma SmallestRingForgets(a: Record, b: Record, m: Record)
    requires RecordOk(a) && RecordOk(b) && RecordOk(m) && RecLen(a) == 24 && RecLen(b) == RecLen(m) == 128
    ensures Geometry(256)
    ensures var q := Appended(256, Appended(256, Queue(0, []), a), b);
            Records(q.entries) == [a, b] && Records(Appended(256, q, m).entries) == [m]
  {
    hide Appended, EvictCount, Records, TotalLen, NeedFor, End, Phys, RecordOk;
    PhysIsMod(256, TWO32);
    TwoAppended(a, b);
    var q := Queue(0, [Rec(a), Rec(b)]);
    PairOfRecords(a, b);
    NeedAtEnd(q, m);
    AppendedSeen(256, q, m);
  }

  lemma PairOfRecords(a: Record, b: Record)
    ensures Records([]) == [] && Records([Rec(a)]) == [a] && Records([Rec(a), Rec(b)]) == [a, b]
    ensures TotalLen([]) == 0 && TotalLen([Rec(a)]) == RecLen(a) && TotalLen([Rec(a), Rec(b)]) == RecLen(a) + RecLen(b)
  {
    assert [Rec(a), Rec(b)][1..] == [Rec(b)] && [Rec(b)][1..] == [] && [Rec(a)][1..] == [];
    assert Records([Rec(b)]) == [b] && TotalLen([Rec(b)]) == RecLen(b);
  }

  lemma TwoAppended(a: Record, b: Record)
    requires RecordOk(a) && RecordOk(b) && RecLen(a) == 24 && RecLen(b) == 128
    ensures Appended(256, Appended(256, Queue(0, []), a), b) == Queue(0, [Rec(a), Rec(b)])
  {
    hide Appended, Records, TotalLen, RecordOk, RecLen;
    PairOfRecords(a, b);
    AppendTo(256, Queue(0, []), a);
    assert [] + [Rec(a)] == [Rec(a)] && [Rec(a)] + [Rec(b)] == [Rec(a), Rec(b)];
    AppendTo(256, Queue(0, [Rec(a)]), b);
  }

  /** 104 bytes are left to the physical end, too few for a record of 128. */
  lemma NeedAtEnd(q: Queue, m: Record)
    requires q.base == 0 && TotalLen(q.entries) == 152 && RecLen(m) == 128
    ensures NeedFor(256, q, m) == 232
  {
    hide TotalLen, RecLen;
    assert Phys(256, 152) == 152;
  }

  lemma StoreCount(w: World, r: Record)
    requires Good(w) && RecordOk(r) && r.seqNo == w.img.seqNo
    ensures 2 * REC_MAX <= |w.img.data| == w.img.size <= TWO31
    ensures |WriteStores(w.img, r)| == WriteLen(|w.img.data|, w.q, r) >= 2
  {
    hide Rep, EvictCount, Phys;
    RepBounds(w.img, w.q);
    WriteCut(w.img, w.q, r, 0);
  }

  /** The re-initialised ring (power loss, or a header that does not check out). */
  function Fresh(n: nat): Image
    requires n < TWO32
  {
    Image(LOG_MAGIC, LOG_VERSION, n, 0, 0, 0, 1, Zeros(n))
  }

  lemma FreshGood(n: nat)
    requires Geometry(n)
    ensures Good(World(Fresh(n), Queue(0, []), [], 0))
  {
  }
}
