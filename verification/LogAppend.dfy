/** One `log_vwrite` as the exact sequence of memory stores it performs, and the queue the
    ring stands for after any prefix of them: a reset between any two stores loses at most
    the record being written. */
module LogAppend {
  import opened Machine
  import opened LogRecord
  import opened LogRing

  // ---- the code's view -----------------------------------------------------

  /** The bytes `ring_get` copies, going round the physical end. */
  function RingBytes(d: seq<byte>, off: u32, len: nat): (b: seq<byte>)
    requires len <= |d| && 0 < |d|
    ensures |b| == len
  {
    seq(len, i requires 0 <= i < len => d[Wrap(|d|, Phys(|d|, off) + i)])
  }

  /** Away from the physical end, a ring read is a plain slice. */
  lemma RingSlice(d: seq<byte>, off: u32, len: nat)
    requires 0 < |d| && Phys(|d|, off) + len <= |d|
    ensures RingBytes(d, off, len) == d[Phys(|d|, off)..Phys(|d|, off) + len]
  {
    hide Phys;
    var p, b := Phys(|d|, off), RingBytes(d, off, len);
    forall i | 0 <= i < len ensures b[i] == d[p..p + len][i] {
      assert Wrap(|d|, p + i) == p + i;
    }
  }

  function Used(img: Image): u32 { Sub32(img.head, img.tail) }

  function Free(img: Image): u32 { Sub32(img.size, Used(img)) }

  function TotalAt(img: Image, off: u32): u16
    requires 2 <= |img.data|
  {
    FromLe16(RingBytes(img.data, off, 2))
  }

  /** The tail stores of the eviction loop, on any image whatever. */
  function EvictStores(img: Image, need: nat): seq<Store>
    requires 2 <= |img.data| && need <= img.size <= TWO31
    decreases if Used(img) <= img.size then Used(img) else 0
  {
    if Free(img) >= need || img.tail == img.head then
      []
    else
      var total := TotalAt(img, img.tail);
      if total < 4 || total % 4 != 0 then
        [SetTail(img.head)]
      else
        var t := Add32(img.tail, total);
        [SetTail(t)] + EvictStores(img.(tail := t), need)
  }

  function SkipBefore(n: nat, head: u32, len: nat): nat
    requires 0 < n
  {
    var o := Phys(n, head);
    if o + len > n then n - o else 0
  }

  function SkipStores(n: nat, head: u32, skip: nat): (ss: seq<Store>)
    requires 0 < n && skip < TWO16
    ensures |ss| == if skip == 0 then 0 else 5
  {
    if skip == 0 then [] else PutStores(n, head, Lead(skip, LEVEL_SKIP)) + [SetHead(Add32(head, skip))]
  }

  function BodyStores(n: nat, head: u32, r: Record): (ss: seq<Store>)
    requires 0 < n && RecordOk(r)
    ensures |ss| == RecLen(r) + 2
  {
    PutStores(n, head, EncodeRecord(r)) + [SetSeq(Add32(r.seqNo, 1)), SetHead(Add32(head, RecLen(r)))]
  }

  /** Every store of one append, in program order: tail advances, SKIP word, SKIP commit,
      header and text bytes, sequence bump, head commit. */
  function WriteStores(img: Image, r: Record): seq<Store>
    requires 2 <= |img.data| && RecordOk(r) && 2 * REC_MAX <= img.size <= TWO31
  {
    var n := |img.data|;
    var skip := SkipBefore(n, img.head, RecLen(r));
    EvictStores(img, skip + RecLen(r)) + SkipStores(n, img.head, skip) +
    BodyStores(n, Add32(img.head, skip), r)
  }

  // ---- the queue's view ----------------------------------------------------

  function Drop(q: Queue, k: nat): Queue
    requires k <= |q.entries|
  {
    Queue(q.base + TotalLen(q.entries[..k]), q.entries[k..])
  }

  function Push(q: Queue, e: Entry): Queue { q.(entries := q.entries + [e]) }

  /** How many of the oldest entries must go before @p need bytes are free. */
  function EvictCount(n: nat, es: seq<Entry>, need: nat): (j: nat)
    ensures j <= |es|
  {
    if n - TotalLen(es) >= need || es == [] then 0 else 1 + EvictCount(n, es[1..], need)
  }

  /** The queue after the first @p k stores of appending @p r. */
  function CutQueue(n: nat, q: Queue, r: Record, k: nat): Queue
    requires 0 < n
  {
    var skip := SkipBefore(n, End(q) % TWO32, RecLen(r));
    var j := EvictCount(n, q.entries, skip + RecLen(r));
    var s := j + if skip > 0 then 5 else 0;
    if k < j then Drop(q, k) else
    var q' := if skip > 0 && k >= s then Push(Drop(q, j), Skip(skip)) else Drop(q, j);
    if k >= s + RecLen(r) + 2 then Push(q', Rec(r)) else q'
  }

  /** How many stores an append makes. */
  function WriteLen(n: nat, q: Queue, r: Record): nat
    requires 0 < n
  {
    var skip := SkipBefore(n, End(q) % TWO32, RecLen(r));
    EvictCount(n, q.entries, skip + RecLen(r)) + (if skip > 0 then 5 else 0) + RecLen(r) + 2
  }

  /** The queue after a complete append. */
  function Appended(n: nat, q: Queue, r: Record): Queue
    requires 0 < n
  {
    var skip := SkipBefore(n, End(q) % TWO32, RecLen(r));
    var q' := Drop(q, EvictCount(n, q.entries, skip + RecLen(r)));
    Push(if skip > 0 then Push(q', Skip(skip)) else q', Rec(r))
  }

  // ---- eviction ------------------------------------------------------------

  lemma UsedIsTotal(img: Image, q: Queue)
    requires Rep(img, q)
    ensures Used(img) == TotalLen(q.entries) && Free(img) == |img.data| - TotalLen(q.entries)
  {
    WordOffsets(q.base, TotalLen(q.entries));
  }

  lemma RepBounds(img: Image, q: Queue)
    requires Rep(img, q)
    ensures 2 * REC_MAX <= |img.data| == img.size <= 0x4000_0000
    ensures img.tail == q.base % TWO32 && img.head == End(q) % TWO32 && TotalLen(q.entries) <= |img.data|
  {
  }

  lemma EndStays(q: Queue, k: nat)
    requires k <= |q.entries|
    ensures End(Drop(q, k)) == End(q)
  {
    assert q.entries == q.entries[..k] + q.entries[k..];
    TotalLenConcat(q.entries[..k], q.entries[k..]);
  }

  /** The eviction stops at the first point with enough room: no shorter prefix would do. */
  lemma {:induction false} EvictCountLeast(n: nat, es: seq<Entry>, need: nat)
    requires need <= n
    ensures n - TotalLen(es[EvictCount(n, es, need)..]) >= need
    ensures forall i :: 0 <= i < EvictCount(n, es, need) ==> n - TotalLen(es[i..]) < need
  {
    if n - TotalLen(es) >= need || es == [] {
      assert es[0..] == es;
    } else {
      EvictCountLeast(n, es[1..], need);
      var j := EvictCount(n, es, need);
      assert es[1..][j - 1..] == es[j..];
      forall i | 0 <= i < j ensures n - TotalLen(es[i..]) < need {
        if i > 0 {
          assert es[1..][i - 1..] == es[i..];
        } else {
          assert es[0..] == es;
        }
      }
    }
  }

  function LevelOf(e: Entry): byte { if e.Skip? then LEVEL_SKIP else e.record.level }

  /** Every entry starts with its leading word. */
  lemma LeadStored(d: seq<byte>, p: nat, e: Entry)
    requires EntryAt(d, p, e)
    ensures 4 <= Len(e) < TWO16 && Len(e) % 4 == 0 && p + Len(e) <= |d|
    ensures d[p..p + 4] == Lead(Len(e), LevelOf(e))
  {
    if e.Rec? {
      assert d[p..p + 4] == d[p..p + Len(e)][..4] && EncodeRecord(e.record)[..4] == Lead(Len(e), e.record.level);
    }
  }

  function WordAt(img: Image, off: u32): u32
    requires 4 <= |img.data|
  {
    FromLe32(RingBytes(img.data, off, 4))
  }

  lemma EntryRead(img: Image, base: nat, e: Entry)
    requires Geometry(|img.data|) && EntryAt(img.data, Phys(|img.data|, base), e)
    ensures 4 <= Len(e) < TWO16 && Len(e) % 4 == 0
    ensures TotalAt(img, base % TWO32) == Len(e)
    ensures var w := WordAt(img, base % TWO32);
            Total(w) == Len(e) && Level(w) == LevelOf(e) && Magic(w) == REC_MAGIC
  {
    hide EntryAt, Phys, Len;
    var p := Phys(|img.data|, base);
    PhysThroughWord(|img.data|, base);
    LeadStored(img.data, p, e);
    RingSlice(img.data, base % TWO32, 4);
    RingSlice(img.data, base % TWO32, 2);
    LeadFields(Len(e), LevelOf(e));
    assert img.data[p..p + 2] == img.data[p..p + 4][..2] == Le16(Len(e));
  }

  lemma FirstLen(q: Queue)
    requires q.entries != []
    ensures TotalLen(q.entries[..1]) == Len(q.entries[0]) && TotalLen(q.entries[1..]) <= TotalLen(q.entries)
  {
    assert q.entries[..1] == [q.entries[0]] && [q.entries[0]][1..] == [];
  }

  lemma OldestRead(img: Image, q: Queue)
    requires Rep(img, q) && q.entries != []
    ensures TotalAt(img, img.tail) == Len(q.entries[0]) && 4 <= Len(q.entries[0]) < TWO16 && Len(q.entries[0]) % 4 == 0
  {
    hide EntryAt, Phys, Len, WordAt, TotalAt, TotalLen;
    EntryRead(img, q.base, q.entries[0]);
  }

  lemma DropOldest(img: Image, q: Queue)
    requires Rep(img, q) && q.entries != [] && Len(q.entries[0]) % 4 == 0 && Len(q.entries[0]) < TWO16
    ensures Rep(img.(tail := Add32(img.tail, Len(q.entries[0]))), Drop(q, 1))
  {
    hide EntryAt, Phys, Len, TotalLen, Geometry, Holds, End;
    var e := q.entries[0];
    RestHolds(img.data, q.base, q.entries);
    WordOffsets(q.base, Len(e));
    FourMore(q.base, Len(e));
    FirstLen(q);
    EndStays(q, 1);
  }

  /** Without its first entry the rest of a tiling starts one entry further on. */
  lemma RestHolds(d: seq<byte>, base: nat, es: seq<Entry>)
    requires Geometry(|d|) && es != [] && Holds(d, Phys(|d|, base), es)
    ensures Len(es[0]) >= 0 && Holds(d, Phys(|d|, base + Len(es[0])), es[1..])
  {
    hide EntryAt, Phys, Len;
    EntrySize(d, Phys(|d|, base), es[0]);
    PhysAdd(|d|, base, Len(es[0]));
  }

  /** One turn of the eviction loop drops the oldest entry. */
  lemma EvictStep(img: Image, q: Queue, need: nat)
    requires Rep(img, q) && need <= |img.data|
    ensures Free(img) < need && q.entries != [] ==>
              && EvictCount(|img.data|, q.entries, need) == 1 + EvictCount(|img.data|, Drop(q, 1).entries, need)
              && var img' := img.(tail := Drop(q, 1).base % TWO32);
                 && Rep(img', Drop(q, 1))
                 && EvictStores(img, need) == [SetTail(img'.tail)] + EvictStores(img', need)
    ensures !(Free(img) < need && q.entries != []) ==>
              EvictCount(|img.data|, q.entries, need) == 0 && EvictStores(img, need) == []
  {
    UsedIsTotal(img, q);
    if q.entries != [] {
      OldestRead(img, q);
      DropOldest(img, q);
      WordOffsets(q.base, Len(q.entries[0]));
      assert q.entries[..1] == [q.entries[0]] && TotalLen([q.entries[0]]) == Len(q.entries[0]);
    }
  }

  lemma DropDrop(q: Queue, k: nat)
    requires 1 <= k <= |q.entries|
    ensures Drop(Drop(q, 1), k - 1) == Drop(q, k)
  {
    assert q.entries[..k] == q.entries[..1] + q.entries[1..][..k - 1];
    TotalLenConcat(q.entries[..1], q.entries[1..][..k - 1]);
  }

  lemma {:induction false} EvictCut(img: Image, q: Queue, need: nat, k: nat)
    requires Rep(img, q) && need <= |img.data| && k <= EvictCount(|img.data|, q.entries, need)
    ensures |EvictStores(img, need)| == EvictCount(|img.data|, q.entries, need)
    ensures ApplyAll(img, EvictStores(img, need)[..k]) == img.(tail := Drop(q, k).base % TWO32)
    ensures Rep(img.(tail := Drop(q, k).base % TWO32), Drop(q, k))
    decreases |q.entries|
  {
    hide Rep, EvictCount, EvictStores, Free;
    RepBounds(img, q);
    EvictStep(img, q, need);
    var ss := EvictStores(img, need);
    if k == 0 {
      assert ss[..0] == [] && Drop(q, 0) == q;
    }
    if Free(img) >= need || q.entries == [] {
    } else {
      var q' := Drop(q, 1);
      var img' := img.(tail := q'.base % TWO32);
      EvictCut(img', q', need, if k == 0 then 0 else k - 1);
      if k > 0 {
        DropDrop(q, k);
        assert ss[..k] == [ss[0]] + EvictStores(img', need)[..k - 1];
      }
    }
  }

  // ---- writing into the free space ----------------------------------------

  lemma HeadOffset(img: Image, q: Queue)
    requires Rep(img, q)
    ensures Phys(|img.data|, img.head) == Wrap(|img.data|, Phys(|img.data|, q.base) + TotalLen(q.entries)) == Phys(|img.data|, End(q))
  {
    PhysAdd(|img.data|, q.base, TotalLen(q.entries));
    PhysThroughWord(|img.data|, End(q));
  }

  /** Bytes written beyond the head leave the queue alone. */
  lemma FreeBytes(img: Image, q: Queue, bytes: seq<byte>, k: nat)
    requires Rep(img, q) && TotalLen(q.entries) + |bytes| <= |img.data| && k <= |bytes|
    ensures var img' := img.(data := Overwrite(img.data, Phys(|img.data|, img.head), bytes[..k]));
            ApplyAll(img, PutStores(|img.data|, img.head, bytes)[..k]) == img' && Rep(img', q)
  {
    hide EntryAt, Geometry, Phys;
    PutStoresEffect(img, img.head, bytes, k);
    HeadOffset(img, q);
    var n, p := |img.data|, Phys(|img.data|, q.base);
    var d := Overwrite(img.data, Phys(n, img.head), bytes[..k]);
    forall i: nat | i < n && Ahead(n, p, i) < TotalLen(q.entries) ensures d[i] == img.data[i] {
      assert Ahead(n, Phys(n, img.head), i) >= |bytes|;
    }
    HoldsFrame(img.data, d, p, q.entries);
  }

  /** Moving the head over a complete entry appends it. */
  lemma CommitEntry(img: Image, q: Queue, e: Entry)
    requires Rep(img, q) && TotalLen(q.entries) + Len(e) <= |img.data|
    requires EntryAt(img.data, Phys(|img.data|, img.head), e)
    ensures Rep(img.(head := Add32(img.head, Len(e))), Push(q, e))
  {
    hide Phys, EntryAt;
    HeadOffset(img, q);
    HoldsAppend(img.data, Phys(|img.data|, q.base), q.entries, e);
    TotalLenConcat(q.entries, [e]);
    assert TotalLen([e]) == Len(e);
    WordOffsets(End(q), Len(e));
  }

  lemma PrefixOfConcat<T>(a: seq<T>, b: seq<T>, k: nat)
    requires k <= |a| + |b|
    ensures (a + b)[..k] == if k <= |a| then a[..k] else a + b[..k - |a|]
  {
  }

  /** Applying a prefix of two runs of stores. */
  lemma ApplyPrefix(img: Image, a: seq<Store>, b: seq<Store>, k: nat)
    requires k <= |a| + |b|
    ensures ApplyAll(img, (a + b)[..k]) ==
            if k <= |a| then ApplyAll(img, a[..k]) else ApplyAll(ApplyAll(img, a), b[..k - |a|])
  {
    PrefixOfConcat(a, b, k);
    if k > |a| {
      ApplyAllConcat(img, a, b[..k - |a|]);
    }
  }

  lemma ApplyOne(img: Image, s: Store)
    ensures ApplyAll(img, [s]) == Apply(img, s) && ApplyAll(img, []) == img
  {
    assert [s][1..] == [];
  }

  /** The image after a whole run of `ring_put` at the head. */
  function Written(img: Image, bytes: seq<byte>): Image
    requires 0 < |img.data|
  {
    ApplyAll(img, PutStores(|img.data|, img.head, bytes))
  }

  /** Bytes that do not reach past the physical end of the ring lie there in one piece. */
  lemma WrittenBytes(img: Image, q: Queue, bytes: seq<byte>)
    requires Rep(img, q) && TotalLen(q.entries) + |bytes| <= |img.data|
    requires Phys(|img.data|, img.head) + |bytes| <= |img.data|
    ensures var img', p := Written(img, bytes), Phys(|img.data|, img.head);
            && Rep(img', q) && img'.(data := img.data) == img && |img'.data| == |img.data|
            && img'.data[p..p + |bytes|] == bytes
  {
    hide Phys, PutStores, ApplyAll, Holds, Geometry, EntryAt;
    FreeBytes(img, q, bytes, |bytes|);
    assert bytes[..|bytes|] == bytes;
    var n, p := |img.data|, Phys(|img.data|, img.head);
    assert PutStores(n, img.head, bytes)[..|bytes|] == PutStores(n, img.head, bytes);
    OverwriteSlice(img.data, p, bytes);
  }

  lemma OverwriteSlice(d: seq<byte>, p: nat, bytes: seq<byte>)
    requires p < |d| && p + |bytes| <= |d|
    ensures Overwrite(d, p, bytes)[p..p + |bytes|] == bytes
  {
    var o := Overwrite(d, p, bytes);
    forall i | 0 <= i < |bytes| ensures o[p..p + |bytes|][i] == bytes[i] {
      assert o[p..p + |bytes|][i] == o[p + i] && Ahead(|d|, p, p + i) == i;
    }
  }

  /** A whole entry's worth of bytes at the head, followed by moving the head over it. */
  lemma EntryWritten(img: Image, q: Queue, e: Entry, bytes: seq<byte>, s: u32)
    requires Rep(img, q) && TotalLen(q.entries) + Len(e) <= |img.data| && |bytes| <= Len(e)
    requires Phys(|img.data|, img.head) + Len(e) <= |img.data|
    requires match e
             case Skip(n) => Phys(|img.data|, img.head) + n == |img.data| && 4 <= n < TWO16 && n % 4 == 0 &&
                             bytes == Lead(n, LEVEL_SKIP)
             case Rec(r) => RecordOk(r) && bytes == EncodeRecord(r)
    ensures Rep(Written(img, bytes).(seqNo := s), q)
    ensures Written(img, bytes).(data := img.data) == img && |Written(img, bytes).data| == |img.data|
    ensures Rep(Written(img, bytes).(seqNo := s, head := Add32(img.head, Len(e))), Push(q, e))
  {
    hide Phys, Written, Holds;
    WrittenBytes(img, q, bytes);
    CommitEntry(Written(img, bytes).(seqNo := s), q, e);
  }

  // ---- the phases after the eviction ----------------------------------------

  lemma SkipSize(img: Image, q: Queue)
    requires Rep(img, q)
    ensures (|img.data| - Phys(|img.data|, img.head)) % 4 == 0
  {
    hide EntryAt, Holds, Phys, TotalLen, Geometry;
    HeadOffset(img, q);
    EndAligned(img, q);
    PhysAligned(|img.data|, End(q));
    FourApart(|img.data|, Phys(|img.data|, End(q)));
  }

  lemma EndAligned(img: Image, q: Queue)
    requires Rep(img, q)
    ensures 0 < |img.data| && |img.data| % 4 == 0 && End(q) % 4 == 0
  {
    hide EntryAt, Holds, Phys, TotalLen;
    PhysAligned(|img.data|, q.base);
    HoldsAligned(img.data, Phys(|img.data|, q.base), q.entries);
    FourMore(q.base, TotalLen(q.entries));
  }

  lemma FourApart(a: nat, b: nat)
    requires a % 4 == 0 && b % 4 == 0
    ensures (a - b) % 4 == 0
  {
  }

  lemma FourMore(a: nat, b: nat)
    requires a % 4 == 0 && b % 4 == 0
    ensures (a + b) % 4 == 0
  {
  }

  lemma SkipCut(img: Image, q: Queue, skip: nat, k: nat)
    requires Rep(img, q) && skip == |img.data| - Phys(|img.data|, img.head) < TWO16
    requires TotalLen(q.entries) + skip <= |img.data| && k <= 5
    ensures var img' := ApplyAll(img, SkipStores(|img.data|, img.head, skip)[..k]);
            && Rep(img', if k == 5 then Push(q, Skip(skip)) else q)
            && img'.(data := img.data, head := img.head) == img && |img'.data| == |img.data|
            && img'.head == if k == 5 then Add32(img.head, skip) else img.head
  {
    hide EntryAt, Holds, PutStores, Phys, ApplyAll, Geometry;
    var n, lead := |img.data|, Lead(skip, LEVEL_SKIP);
    SkipSize(img, q);
    var fin := [SetHead(Add32(img.head, skip))];
    ApplyPrefix(img, PutStores(n, img.head, lead), fin, k);
    FreeBytes(img, q, lead, Min(k, 4));
    if k == 5 {
      EntryWritten(img, q, Skip(skip), lead, img.seqNo);
      assert fin[..1] == fin;
      ApplyOne(Written(img, lead), fin[0]);
    }
  }

  lemma BodyCut(img: Image, q: Queue, r: Record, k: nat)
    requires Rep(img, q) && RecordOk(r)
    requires Phys(|img.data|, img.head) + RecLen(r) <= |img.data| && TotalLen(q.entries) + RecLen(r) <= |img.data|
    requires k <= RecLen(r) + 2
    ensures var img' := ApplyAll(img, BodyStores(|img.data|, img.head, r)[..k]);
            && Rep(img', if k == RecLen(r) + 2 then Push(q, Rec(r)) else q)
            && img'.(data := img.data, head := img.head, seqNo := img.seqNo) == img && |img'.data| == |img.data|
            && img'.seqNo == if k > RecLen(r) then Add32(r.seqNo, 1) else img.seqNo
  {
    hide Rep, Phys, PutStores, ApplyAll, EncodeRecord;
    var n, len, enc := |img.data|, RecLen(r), EncodeRecord(r);
    var seqStore, headStore := SetSeq(Add32(r.seqNo, 1)), SetHead(Add32(img.head, len));
    ApplyPrefix(img, PutStores(n, img.head, enc), [seqStore, headStore], k);
    FreeBytes(img, q, enc, Min(k, len));
    if k > len {
      EntryWritten(img, q, Rec(r), enc, Add32(r.seqNo, 1));
      var img1 := Written(img, enc);
      assert [seqStore, headStore][..1] == [seqStore];
      assert [seqStore, headStore][..2] == [seqStore] + [headStore];
      ApplyOne(img1, seqStore);
      ApplyOne(Apply(img1, seqStore), headStore);
      ApplyAllConcat(img1, [seqStore], [headStore]);
    }
  }

  /** The stores after the eviction, given the room it made. */
  lemma AfterEviction(img: Image, q: Queue, r: Record, skip: nat, k: nat)
    requires Rep(img, q) && RecordOk(r) && r.seqNo == img.seqNo
    requires skip == SkipBefore(|img.data|, img.head, RecLen(r))
    requires TotalLen(q.entries) + skip + RecLen(r) <= |img.data|
    requires k <= (if skip > 0 then 5 else 0) + RecLen(r) + 2
    ensures var s := if skip > 0 then 5 else 0;
            var ss := SkipStores(|img.data|, img.head, skip) + BodyStores(|img.data|, Add32(img.head, skip), r);
            var img' := ApplyAll(img, ss[..k]);
            var q' := if skip > 0 && k >= s then Push(q, Skip(skip)) else q;
            && |ss| == s + RecLen(r) + 2
            && Rep(img', if k == |ss| then Push(q', Rec(r)) else q')
            && |img'.data| == |img.data| && img'.bootCount == img.bootCount
            && img'.seqNo == if k >= |ss| - 1 then Add32(img.seqNo, 1) else img.seqNo
  {
    hide Rep, Holds, EntryAt, Phys, ApplyAll, BodyStores, EncodeRecord;
    var n := |img.data|;
    var sk, bd := SkipStores(n, img.head, skip), BodyStores(n, Add32(img.head, skip), r);
    if skip == 0 {
      assert sk + bd == bd;
      BodyCut(img, q, r, k);
    } else {
      ApplyPrefix(img, sk, bd, k);
      SkipCut(img, q, skip, Min(k, 5));
      if k > 5 {
        assert sk[..5] == sk;
        var img1, q1 := ApplyAll(img, sk), Push(q, Skip(skip));
        TotalLenConcat(q.entries, [Skip(skip)]);
        assert TotalLen([Skip(skip)]) == skip;
        HeadAtZero(img, q, skip);
        BodyCut(img1, q1, r, k - 5);
      }
    }
  }

  lemma HeadAtZero(img: Image, q: Queue, skip: nat)
    requires Rep(img, q) && skip == |img.data| - Phys(|img.data|, img.head)
    ensures Phys(|img.data|, Add32(img.head, skip)) == 0
  {
    hide Phys, Holds, EntryAt;
    HeadOffset(img, q);
    WordOffsets(End(q), skip);
    PhysAdd(|img.data|, End(q), skip);
    PhysThroughWord(|img.data|, End(q) + skip);
  }

  // ---- the whole append ----------------------------------------------------

  /** Crash consistency of one append: stop after any number @p k of its stores, and the
      ring stands for exactly the queue `CutQueue` names. */
  lemma WriteCut(img: Image, q: Queue, r: Record, k: nat)
    requires Rep(img, q) && RecordOk(r) && r.seqNo == img.seqNo
    requires k <= |WriteStores(img, r)|
    ensures var img' := ApplyAll(img, WriteStores(img, r)[..k]);
            && Rep(img', CutQueue(|img.data|, q, r, k))
            && |img'.data| == |img.data| && img'.bootCount == img.bootCount
            && img'.seqNo == if k >= |WriteStores(img, r)| - 1 then Add32(img.seqNo, 1) else img.seqNo
    ensures |WriteStores(img, r)| == WriteLen(|img.data|, q, r)
  {
    hide Rep, Holds, EntryAt, Phys, TotalLen, ApplyAll, EvictStores, SkipStores, BodyStores, EncodeRecord, EvictCount;
    RepBounds(img, q);
    var n, len := |img.data|, RecLen(r);
    var skip := SkipBefore(n, img.head, len);
    var need := skip + len;
    var j := EvictCount(n, q.entries, need);
    var ev := EvictStores(img, need);
    var rest := SkipStores(n, img.head, skip) + BodyStores(n, Add32(img.head, skip), r);
    assert WriteStores(img, r) == ev + rest;
    EvictCut(img, q, need, Min(k, j));
    EvictCut(img, q, need, j);
    assert ev[..j] == ev;
    EvictCountLeast(n, q.entries, need);
    EndStays(q, j);
    var img1, q1 := img.(tail := Drop(q, j).base % TWO32), Drop(q, j);
    AfterEviction(img1, q1, r, skip, 0);
    ApplyPrefix(img, ev, rest, k);
    if k >= j {
      AfterEviction(img1, q1, r, skip, k - j);
      assert k == j ==> rest[..0] == [];
    }
  }

  lemma CutWhole(n: nat, q: Queue, r: Record)
    requires 0 < n
    ensures CutQueue(n, q, r, WriteLen(n, q, r)) == Appended(n, q, r)
  {
    hide EvictCount, SkipBefore, TotalLen, Phys;
  }

  /** A complete append leaves the ring standing for `Appended`. */
  lemma AppendRefinesQueue(img: Image, q: Queue, r: Record)
    requires Rep(img, q) && RecordOk(r) && r.seqNo == img.seqNo
    ensures 2 * REC_MAX <= img.size == |img.data| <= TWO31
    ensures Rep(ApplyAll(img, WriteStores(img, r)), Appended(|img.data|, q, r))
  {
    RepBounds(img, q);
    hide Rep, WriteStores, ApplyAll, CutQueue, WriteLen, Appended;
    var ws := WriteStores(img, r);
    WriteCut(img, q, r, |ws|);
    CutWhole(|img.data|, q, r);
    assert ws[..|ws|] == ws;
  }

  /** `Appended` is the old queue minus its shortest oldest part that makes room, plus the
      new record, behind a SKIP if it would otherwise cross the physical end. */
  lemma AppendedShape(n: nat, q: Queue, r: Record) returns (j: nat)
    requires 2 * REC_MAX <= n && RecordOk(r)
    ensures j <= |q.entries|
    ensures var skip := SkipBefore(n, End(q) % TWO32, RecLen(r));
            && Appended(n, q, r).base == q.base + TotalLen(q.entries[..j])
            && Appended(n, q, r).entries == q.entries[j..] + (if skip > 0 then [Skip(skip), Rec(r)] else [Rec(r)])
            && n - TotalLen(q.entries[j..]) >= skip + RecLen(r)
            && (forall i :: 0 <= i < j ==> n - TotalLen(q.entries[i..]) < skip + RecLen(r))
  {
    hide EvictCount, TotalLen, Phys;
    var skip := SkipBefore(n, End(q) % TWO32, RecLen(r));
    EvictCountLeast(n, q.entries, skip + RecLen(r));
    j := EvictCount(n, q.entries, skip + RecLen(r));
  }
}
