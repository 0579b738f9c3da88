/** What the operations of the log show its reader (svc/log.c), beside appends: a clear empties
    it, a boot is counted, and a pass that nothing interferes with shows every record. */
module LogLaws {
  import opened Machine
  import opened LogRecord
  import opened LogRing
  import opened LogAppend
  import opened LogBoot
  import opened LogRuns
  import opened LogIter
  import opened LogCursor

  // ---- clear -----------------------------------------------------------------------------

  /** A clear that happens leaves nothing to show, moves the tail to the head and nothing else;
      numbers go on from where they were. One that is cut before its store changes nothing. */
  lemma ClearSeen(w: World, cut: nat)
    requires Good(w)
    ensures 4 <= |w.img.data| && 2 * REC_MAX <= w.img.size <= TWO31
    ensures var w' := NextWorld(w, Step(Clear, cut));
            && w'.log == w.log && w'.issued == w.issued
            && (cut == 0 ==> w'.img == w.img && w'.q == w.q)
            && (cut >= 1 ==> Records(w'.q.entries) == [] && w'.q.base == End(w.q) && w'.img == w.img.(tail := w.img.head))
  {
    hide Holds, EntryAt, Phys, Numbered, ApplyAll, Seconds;
    RepBounds(w.img, w.q);
    ApplyNone(w.img);
    ApplyOne(w.img, SetTail(w.img.head));
    assert [SetTail(w.img.head)][..0] == [];
  }

  lemma ApplyNone(img: Image)
    ensures ApplyAll(img, []) == img
  {
  }

  // ---- boots -----------------------------------------------------------------------------

  predicate NoBoots(ss: seq<Store>) { forall i :: 0 <= i < |ss| ==> !ss[i].SetBoots? }

  lemma {:induction false} BootsSame(img: Image, ss: seq<Store>)
    requires NoBoots(ss)
    ensures ApplyAll(img, ss).bootCount == img.bootCount
    decreases |ss|
  {
    if ss == [] {
    } else {
      BootsSame(Apply(img, ss[0]), ss[1..]);
    }
  }

  lemma {:induction false} EvictsQuietly(img: Image, need: nat)
    requires 2 <= |img.data| && need <= img.size <= TWO31
    ensures NoBoots(EvictStores(img, need))
    decreases if Used(img) <= img.size then Used(img) else 0
  {
    hide TotalAt;
    if Free(img) >= need || img.tail == img.head {
    } else {
      var total := TotalAt(img, img.tail);
      if total < 4 || total % 4 != 0 {
      } else {
        EvictsQuietly(img.(tail := Add32(img.tail, total)), need);
      }
    }
  }

  lemma WritesQuietly(img: Image, r: Record)
    requires 4 <= |img.data| && RecordOk(r) && 2 * REC_MAX <= img.size <= TWO31
    ensures NoBoots(WriteStores(img, r))
  {
    hide EvictStores, Phys, EncodeRecord;
    var n := |img.data|;
    EvictsQuietly(img, SkipBefore(n, img.head, RecLen(r)) + RecLen(r));
  }

  /** A boot counts itself, with its second store, in a word that nothing else of it touches. */
  lemma BootCounted(w: World, boot: Op, cut: nat)
    requires Good(w) && boot.Boot? && OpOk(boot)
    ensures 4 <= |w.img.data| && 2 * REC_MAX <= w.img.size <= TWO31
    ensures NextWorld(w, Step(boot, cut)).img.bootCount == if cut >= 2 then Add32(w.img.bootCount, 1) else w.img.bootCount
  {
    hide Good, WriteStores, ApplyAll, Walk, BootStores, CutQueue, WriteLen;
    GoodRep(w);
    RepBounds(w.img, w.q);
    BootedGood(w);
    var r := OpRecord(boot, w.img.seqNo).value;
    BootDone(w.img, r, cut);
    var ws := WriteStores(Booted(w.img), r);
    WritesQuietly(Booted(w.img), r);
    if cut > 2 { BootsSame(Booted(w.img), if cut - 2 < |ws| then ws[..cut - 2] else ws); }
  }

  // ---- a pass that nothing interferes with ---------------------------------------------------

  /** @p n calls for the next record in a row. */
  function Calls(n: nat): (evs: seq<Event>)
    ensures EventsOk(evs)
  {
    if n == 0 then [] else [Next] + Calls(n - 1)
  }

  lemma {:induction false} RecordsFrom(es: seq<Entry>, i: nat)
    requires i <= |es|
    ensures var k := FirstRec(es, i);
            Records(es[i..]) == if k == |es| then [] else [es[k].record] + Records(es[k + 1..])
    decreases |es| - i
  {
    if i == |es| {
    } else {
      assert es[i..][0] == es[i] && es[i..][1..] == es[i + 1..];
      if es[i].Skip? { RecordsFrom(es, i + 1); }
    }
  }

  lemma StillThere(w: World)
    requires Good(w)
    ensures Positive(w.q.entries) && Evolves(w.q, w.q) && TailIndex(w.q, w.q, 0)
  {
    hide Good, TotalLen;
    QueuePositive(w);
    DropEvolves(w.q, 0);
    assert w.q.entries[..0] == [] && w.q.entries[0..] == w.q.entries;
    Nothing();
    assert Drop(w.q, 0) == w.q;
    if w.q.entries != [] { FirstCounts(w.q.entries); }
  }

  lemma Nothing()
    ensures TotalLen([]) == 0
  {
  }

  lemma FirstCounts(es: seq<Entry>)
    requires es != [] && Positive(es)
    ensures TotalLen(es) > 0
  {
    assert es[0] in es;
  }

  /** From entry @p i on, enough calls return every record that follows, in order. */
  lemma {:induction false} QuietCalls(w: World, i: nat, n: nat)
    requires Good(w) && i <= |w.q.entries| && n >= |w.q.entries| - i
    ensures Pass(w, w.q.base + TotalLen(w.q.entries[..i]), End(w.q), Calls(n)) == Records(w.q.entries[i..])
    decreases n
  {
    hide Good, TotalLen, End, IterNext, Pass, Records, FirstRec, Positive, Evolves, TailIndex, EventsOk;
    var es, pos := w.q.entries, w.q.base + TotalLen(w.q.entries[..i]);
    RecordsFrom(es, i);
    if n == 0 {
      PassNothing(w, pos, End(w.q));
      NoneAtEnd(es);
    } else {
      var evs := Calls(n);
      assert evs[0] == Next && evs[1..] == Calls(n - 1);
      StillThere(w);
      PassNext(w, pos, End(w.q), evs);
      NextIsSnapshotNext(w.q, w.q, i, 0);
      var k := FirstRec(es, i);
      if k == |es| {
        PassOver(w, IterNext(w.q, pos, End(w.q)).0, End(w.q), Calls(n - 1));
      } else {
        QuietCalls(w, k + 1, n - 1);
      }
    }
  }

  /** A pass between two changes of the log shows every record, oldest first, and then nothing
      more, however often it is asked. */
  lemma QuietPass(w: World, n: nat)
    requires Good(w) && n >= |w.q.entries|
    ensures Pass(w, w.q.base, End(w.q), Calls(n)) == Records(w.q.entries)
  {
    hide Good, Pass, Records;
    QuietCalls(w, 0, n);
    assert w.q.entries[..0] == [] && w.q.entries[0..] == w.q.entries;
  }

  /** Nothing moves the tail away from the cursor. */
  lemma {:induction false} QuietIsNear(w: World, at: nat, n: nat)
    requires Good(w) && w.q.base <= at
    ensures NearThroughout(w, at, End(w.q), Calls(n))
    decreases n
  {
    hide Good, IterNext, TotalLen;
    if n == 0 {
    } else {
      IterNextForward(w.q, at, End(w.q));
      assert Calls(n)[0] == Next && Calls(n)[1..] == Calls(n - 1);
      QuietIsNear(w, IterNext(w.q, at, End(w.q)).0, n - 1);
    }
  }

  /** On the 32-bit words: a dmesg pass that nothing interferes with copies out every record. */
  lemma QuietPass32(w: World, prev: seq<byte>, n: nat)
    requires Good(w) && |prev| == MSG_MAX + 1 && n >= |w.q.entries|
    ensures AllShown(Pass32(w, w.img.tail, w.img.head, prev, Calls(n)), Records(w.q.entries), prev)
  {
    hide Good, Pass, Pass32, NearThroughout, Picked, Records, AllShown;
    QuietIsNear(w, w.q.base, n);
    QuietPass(w, n);
    var idx := DmesgPass32(w, prev, Calls(n));
  }
}
