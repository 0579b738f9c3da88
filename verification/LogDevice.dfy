/** The log driver itself (svc/log.c): the static ring updated in place, store by store. */
module LogDevice {
  import opened Machine
  import opened LogRecord
  import opened LogRing
  import opened LogAppend
  import opened LogBoot
  import opened LogRuns
  import opened LogFormat
  import opened LogIter
  import opened LogCursor

  /** The snapshot cursor of one dmesg pass. */
  class Cursor {
    var pos: u32
    var end: u32

    constructor ()
      ensures pos == 0 && end == 0
    {
      pos, end := 0, 0;
    }
  }

  /** The stores of one `memcpy` to physical offset @p p. */
  function CopyStores(p: nat, src: seq<byte>): (ss: seq<Store>)
    ensures |ss| == |src|
  {
    seq(|src|, k requires 0 <= k < |src| => SetByte(p + k, src[k]))
  }

  /** `ring_put` is one copy, or two around the physical end. */
  lemma RingPutStores(n: nat, off: u32, src: seq<byte>)
    requires 0 < n && |src| <= n
    ensures var p := Phys(n, off);
            PutStores(n, off, src) ==
            if n - p >= |src| then CopyStores(p, src) else CopyStores(p, src[..n - p]) + CopyStores(0, src[n - p..])
  {
    hide Phys;
    var p, ss := Phys(n, off), PutStores(n, off, src);
    var first := n - p;
    forall k | 0 <= k < |ss| ensures ss[k] == SetByte(Wrap(n, p + k), src[k]) {
    }
    if first >= |src| {
      var c := CopyStores(p, src);
      assert forall k :: 0 <= k < |ss| ==> ss[k] == c[k];
    } else {
      var a, b := CopyStores(p, src[..first]), CopyStores(0, src[first..]);
      forall k | 0 <= k < |ss| ensures ss[k] == (a + b)[k] {
        if k < first {
          assert a[k] == SetByte(p + k, src[..first][k]);
        } else {
          assert b[k - first] == SetByte(0 + (k - first), src[first..][k - first]);
        }
      }
    }
  }

  /** One turn of the eviction loop, on any image. */
  lemma EvictTurn(img0: Image, done: seq<Store>, img: Image, need: nat)
    requires 2 <= |img0.data| && 2 <= |img.data| && need <= img0.size <= TWO31 && need <= img.size <= TWO31
    requires img == ApplyAll(img0, done) && EvictStores(img0, need) == done + EvictStores(img, need)
    requires Free(img) < need && img.tail != img.head
    ensures var total := TotalAt(img, img.tail);
            var t := if total < 4 || total % 4 != 0 then img.head else Add32(img.tail, total);
            var img' := img.(tail := t);
            && img' == ApplyAll(img0, done + [SetTail(t)])
            && EvictStores(img0, need) == done + [SetTail(t)] + EvictStores(img', need)
            && Used(img) <= img.size && Used(img) > 0
            && (Used(img') > img.size || Used(img') < Used(img))
  {
    hide TotalAt, ApplyAll;
    var total := TotalAt(img, img.tail);
    var t := if total < 4 || total % 4 != 0 then img.head else Add32(img.tail, total);
    ApplyAllConcat(img0, done, [SetTail(t)]);
    ApplyOne(img, SetTail(t));
    assert EvictStores(img, need) == [SetTail(t)] + EvictStores(img.(tail := t), need);
  }

  lemma EvictDone(img: Image, need: nat)
    requires 2 <= |img.data| && need <= img.size <= TWO31
    ensures Free(img) >= need || img.tail == img.head ==> EvictStores(img, need) == []
  {
  }

  /** The walk's stores and the marker's append are the stores of a boot. */
  lemma BootComposed(img0: Image, img2: Image, r: Record, before: seq<Store>)
    requires 4 <= |img0.data| && 2 * REC_MAX <= img0.size <= TWO31 && RecordOk(r)
    requires img2 == Booted(img0) == ApplyAll(img0, BootStores(img0))
    ensures 2 <= |img2.data| && 2 * REC_MAX <= img2.size <= TWO31
    ensures var bs, ws := BootStores(img0), WriteStores(img2, r);
            before + bs + ws == before + (bs + ws) && ApplyAll(img2, ws) == ApplyAll(img0, bs + ws)
  {
    hide ApplyAll, WriteStores, BootStores;
    var ws := WriteStores(img2, r);
    ApplyAllConcat(img0, BootStores(img0), ws);
    assert before + BootStores(img0) + ws == before + (BootStores(img0) + ws);
  }

  /** So are those of the re-initialisation and the marker's append, of a boot that keeps
      nothing. */
  lemma RebootComposed(img0: Image, img2: Image, r: Record, before: seq<Store>)
    requires 2 * REC_MAX <= |img0.data| <= TWO31 && RecordOk(r)
    requires img2 == Fresh(|img0.data|) == ApplyAll(img0, FormatStores(|img0.data|))
    ensures var n: u32 := |img0.data|; var f, ws := FormatStores(n), WriteStores(img2, r);
            before + f + ws == before + RebootStores(n, r) && ApplyAll(img2, ws) == ApplyAll(img0, RebootStores(n, r))
  {
    hide ApplyAll, WriteStores, FormatStores;
    var f, ws := FormatStores(|img0.data|), WriteStores(img2, r);
    ApplyAllConcat(img0, f, ws);
    assert before + f + ws == before + (f + ws);
  }

  lemma GeometrySmall(n: nat)
    requires Geometry(n)
    ensures 2 * REC_MAX <= n < TWO31
  {
  }

  /** Making room and writing the body are the stores of an append. */
  lemma WriteComposed(img0: Image, r: Record, skip: nat, img2: Image)
    requires 2 * REC_MAX <= |img0.data| <= TWO31 && img0.size == |img0.data| && RecordOk(r)
    requires skip == SkipBefore(|img0.data|, img0.head, RecLen(r)) && img2.head == Add32(img0.head, skip)
    requires var ss := EvictStores(img0, skip + RecLen(r)) + SkipStores(|img0.data|, img0.head, skip);
             img2 == ApplyAll(img0, ss)
    ensures var bd := BodyStores(|img0.data|, img2.head, r);
            && WriteStores(img0, r) == EvictStores(img0, skip + RecLen(r)) + SkipStores(|img0.data|, img0.head, skip) + bd
            && ApplyAll(img2, bd) == ApplyAll(img0, WriteStores(img0, r))
  {
    hide EvictStores, SkipStores, BodyStores, ApplyAll;
    ApplyAllConcat(img0, EvictStores(img0, skip + RecLen(r)) + SkipStores(|img0.data|, img0.head, skip),
                   BodyStores(|img0.data|, img2.head, r));
  }

  lemma GeometryBounds(n: nat)
    requires Geometry(n)
    ensures 2 * REC_MAX <= n <= 0x4000_0000
  {
  }

  class Log {
    var magic: u32
    var version: u32
    var size: u32
    var head: u32
    var tail: u32
    var seqNo: u32
    var bootCount: u32
    const data: array<byte>

    var ready: bool
    var threshold: byte

    /** Every store to the persistent memory, in the order it was performed. */
    ghost var stores: seq<Store>

    ghost predicate Valid()
      reads this
    {
      Geometry(data.Length) && (ready ==> size == data.Length)
    }

    ghost function Img(): Image
      reads this, data
    {
      Image(magic, version, size, head, tail, seqNo, bootCount, data[..])
    }

    /** The driver wakes up over memory that holds anything at all. */
    constructor (memory: array<byte>, img: Image)
      requires Geometry(memory.Length)
      ensures data == memory && Valid() && !ready && stores == []
      ensures Img() == img.(data := memory[..])
    {
      data := memory;
      magic, version, size, head := img.magic, img.version, img.size, img.head;
      tail, seqNo, bootCount := img.tail, img.seqNo, img.bootCount;
      ready, threshold, stores := false, LEVEL_INF, [];
    }

    /** The physical index of a free-running offset. */
    method Index(off: u32) returns (p: nat)
      requires Valid()
      ensures p == Phys(data.Length, off)
    {
      p := off % data.Length;
      PhysIsMod(data.Length, off);
    }

    /** `memcpy` into the ring from physical offset @p p on. */
    method Copy(p: nat, src: seq<byte>)
      requires p + |src| <= data.Length
      modifies this`stores, data
      ensures stores == old(stores) + CopyStores(p, src) && Img() == ApplyAll(old(Img()), CopyStores(p, src))
    {
      ghost var img0 := Img();
      ghost var ss := CopyStores(p, src);
      assert stores + ss[..0] == stores && ss[..0] == [];
      for i := 0 to |src|
        invariant stores == old(stores) + ss[..i]
        invariant Img() == ApplyAll(img0, ss[..i])
        invariant data.Length == |img0.data|
      {
        ghost var before := Img();
        data[p + i] := src[i];
        stores := stores + [ss[i]];
        assert ss[..i + 1] == ss[..i] + [ss[i]];
        assert Img() == Apply(before, ss[i]);
        ApplyAllConcat(img0, ss[..i], [ss[i]]);
        ApplyOne(before, ss[i]);
      }
      assert ss[..|src|] == ss;
    }

    method RingPut(off: u32, src: seq<byte>)
      requires Valid() && |src| <= data.Length
      modifies this`stores, data
      ensures var ss := PutStores(data.Length, off, src);
              stores == old(stores) + ss && Img() == ApplyAll(old(Img()), ss)
    {
      hide Phys, PutStores, ApplyAll;
      var p := Index(off);
      var first := data.Length - p;
      RingPutStores(data.Length, off, src);
      if first >= |src| {
        Copy(p, src);
      } else {
        Copy(p, src[..first]);
        Copy(0, src[first..]);
        ApplyAllConcat(old(Img()), CopyStores(p, src[..first]), CopyStores(0, src[first..]));
      }
    }

    method RingGet(off: u32, len: nat) returns (dst: seq<byte>)
      requires Valid() && len <= data.Length
      ensures dst == RingBytes(data[..], off, len)
    {
      var p := Index(off);
      var first := data.Length - p;
      if first >= len {
        dst := data[p..p + len];
      } else {
        dst := data[p..p + first] + data[0..len - first];
      }
      ghost var b := RingBytes(data[..], off, len);
      forall i | 0 <= i < len ensures dst[i] == b[i] {
        assert b[i] == data[..][Wrap(data.Length, p + i)];
        assert i >= first ==> dst[i] == data[0..len - first][i - first];
      }
    }

    method RecTotalAt(off: u32) returns (total: u16)
      requires Valid()
      ensures total == TotalAt(Img(), off)
    {
      var b := RingGet(off, 2);
      total := FromLe16(b);
    }

    /** The three scalar stores of an append. */
    method StoreTail(v: u32)
      modifies this`tail, this`stores
      ensures stores == old(stores) + [SetTail(v)] && Img() == Apply(old(Img()), SetTail(v))
    {
      tail := v;
      stores := stores + [SetTail(v)];
    }

    method StoreHead(v: u32)
      modifies this`head, this`stores
      ensures stores == old(stores) + [SetHead(v)] && Img() == Apply(old(Img()), SetHead(v))
    {
      head := v;
      stores := stores + [SetHead(v)];
    }

    method StoreSeq(v: u32)
      modifies this`seqNo, this`stores
      ensures stores == old(stores) + [SetSeq(v)] && Img() == Apply(old(Img()), SetSeq(v))
    {
      seqNo := v;
      stores := stores + [SetSeq(v)];
    }

    method StoreMagic(v: u32)
      modifies this`magic, this`stores
      ensures magic == v && stores == old(stores) + [SetMagic(v)]
    {
      magic := v;
      stores := stores + [SetMagic(v)];
    }

    method StoreVersion(v: u32)
      modifies this`version, this`stores
      ensures version == v && stores == old(stores) + [SetVersion(v)]
    {
      version := v;
      stores := stores + [SetVersion(v)];
    }

    method StoreSize(v: u32)
      modifies this`size, this`stores
      ensures size == v && stores == old(stores) + [SetSize(v)]
    {
      size := v;
      stores := stores + [SetSize(v)];
    }

    method StoreBoots(v: u32)
      modifies this`bootCount, this`stores
      ensures bootCount == v && stores == old(stores) + [SetBoots(v)] && Img() == Apply(old(Img()), SetBoots(v))
    {
      bootCount := v;
      stores := stores + [SetBoots(v)];
    }

    /** Evict whole records from the tail until @p need bytes are free. */
    method Evict(need: nat)
      requires Valid() && ready && need <= size
      modifies this`tail, this`stores
      ensures stores == old(stores) + EvictStores(old(Img()), need)
      ensures Img() == ApplyAll(old(Img()), EvictStores(old(Img()), need))
    {
      assert 2 * REC_MAX <= data.Length <= TWO31;
      hide EvictStores, TotalAt, Geometry, ApplyAll;
      ghost var img0 := Img();
      ghost var done: seq<Store> := [];
      ApplyOne(img0, SetTail(0));
      assert [] + EvictStores(img0, need) == EvictStores(img0, need);
      while Sub32(size, Sub32(head, tail)) < need && tail != head
        invariant stores == old(stores) + done && Img() == ApplyAll(img0, done)
        invariant EvictStores(img0, need) == done + EvictStores(Img(), need)
        decreases if Used(Img()) <= Img().size then Used(Img()) else 0
      {
        EvictTurn(img0, done, Img(), need);
        var malformed := EvictOne();
        done := done + [SetTail(tail)];
        if malformed { break; }
      }
      EvictDone(Img(), need);
      assert done + [] == done;
    }

    /** Drop the oldest entry, or everything if its length makes no sense. */
    method EvictOne() returns (malformed: bool)
      requires Valid() && ready
      modifies this`tail, this`stores
      ensures var img, total := old(Img()), TotalAt(old(Img()), old(tail));
              && malformed == (total < 4 || total % 4 != 0)
              && tail == (if malformed then head else Add32(old(tail), total))
              && stores == old(stores) + [SetTail(tail)] && Img() == img.(tail := tail)
    {
      hide TotalAt, Geometry;
      var total := RecTotalAt(tail);
      malformed := total < 4 || total % 4 != 0;
      if malformed {
        StoreTail(head);
      } else {
        StoreTail(Add32(tail, total));
      }
    }

    /** Append one record.  @p text is the formatted message, at most MSG_MAX bytes, and
        @p ts the tick counter. */
    method Write(level: nat, ts: u32, tag: seq<byte>, text: seq<byte>)
      requires Valid() && |text| <= MSG_MAX
      modifies this, data
      ensures Valid() && ready == old(ready) && threshold == old(threshold)
      ensures var lv: byte := if level > LEVEL_DBG then LEVEL_DBG else level;
              if !old(ready) || lv > old(threshold)
              then Img() == old(Img()) && stores == old(stores)
              else var ss := WriteStores(old(Img()), MakeRecord(lv, ts, old(seqNo), tag, text));
                   Img() == ApplyAll(old(Img()), ss) && stores == old(stores) + ss
    {
      var lv: byte := if level > LEVEL_DBG then LEVEL_DBG else level;
      if !ready || lv > threshold {
        return;
      }
      hide ApplyAll, WriteStores, Geometry, MakeRecord, RecordOk;
      MadeRecord(lv, ts, seqNo, tag, text);
      Append(MakeRecord(lv, ts, seqNo, tag, text), text);
    }

    /** The critical section of an append. */
    method Append(r: Record, text: seq<byte>)
      requires Valid() && ready && RecordOk(r) && r.body == BodyOf(text) && |text| <= MSG_MAX && r.seqNo == seqNo
      modifies this`head, this`tail, this`seqNo, this`stores, data
      ensures 2 * REC_MAX <= |old(Img()).data| && old(Img()).size <= TWO31
      ensures Img() == ApplyAll(old(Img()), WriteStores(old(Img()), r))
      ensures stores == old(stores) + WriteStores(old(Img()), r)
    {
      hide ApplyAll, WriteStores, EvictStores, SkipStores, BodyStores, Geometry, RecordOk;
      GeometryBounds(data.Length);
      ghost var img0 := Img();
      ghost var skip := MakeRoom(RecLen(r));
      ghost var img2 := Img();
      WriteComposed(img0, r, skip, img2);
      WriteBody(r, text, |r.body|);
    }

    /** Evict until the record and any SKIP before it fit, and write the SKIP. */
    method MakeRoom(recLen: nat) returns (skip: nat)
      requires Valid() && ready && recLen <= REC_MAX
      modifies this`head, this`tail, this`stores, data
      ensures skip == SkipBefore(data.Length, old(head), recLen) && skip + recLen <= old(size) <= TWO31
      ensures var ss := EvictStores(old(Img()), skip + recLen) + SkipStores(data.Length, old(head), skip);
              stores == old(stores) + ss && Img() == ApplyAll(old(Img()), ss)
      ensures head == Add32(old(head), skip)
    {
      hide ApplyAll, EvictStores, SkipStores, Geometry, Phys;
      GeometryBounds(data.Length);
      ghost var img0 := Img();
      var o := Index(head);
      skip := if o + recLen > data.Length then data.Length - o else 0;
      Evict(skip + recLen);
      WriteSkip(skip);
      ApplyAllConcat(img0, EvictStores(img0, skip + recLen), SkipStores(data.Length, img0.head, skip));
    }

    /** Fill the fragment before the physical end and move the head over it. */
    method WriteSkip(skip: nat)
      requires Valid() && skip < TWO16
      modifies this`head, this`stores, data
      ensures stores == old(stores) + SkipStores(data.Length, old(head), skip)
      ensures Img() == ApplyAll(old(Img()), SkipStores(data.Length, old(head), skip))
      ensures head == Add32(old(head), skip)
    {
      if skip > 0 {
        var sw := skip + 0x1_0000 * LEVEL_SKIP + 0x100_0000 * REC_MAGIC;
        SkipWordIsLead(skip);
        ghost var put, hd := PutStores(data.Length, head, Lead(skip, LEVEL_SKIP)), SetHead(Add32(head, skip));
        RingPut(head, Le32(sw));
        ghost var mid := Img();
        StoreHead(Add32(head, skip));
        ApplyAllConcat(old(Img()), put, [hd]);
        ApplyOne(mid, hd);
        assert old(stores) + put + [hd] == old(stores) + (put + [hd]);
      }
    }

    /** Header, text, padding, sequence bump, head commit. */
    method WriteBody(r: Record, text: seq<byte>, padded: nat)
      requires Valid() && RecordOk(r) && r.body == BodyOf(text) && padded == |r.body| && |text| <= MSG_MAX
      modifies this`head, this`seqNo, this`stores, data
      ensures stores == old(stores) + BodyStores(data.Length, old(head), r)
      ensures Img() == ApplyAll(old(Img()), BodyStores(data.Length, old(head), r))
    {
      hide ApplyAll, PutStores, EncodeRecord, RecordOk;
      ghost var img0, ps := Img(), PutStores(data.Length, head, EncodeRecord(r));
      ghost var sq, hd := SetSeq(Add32(r.seqNo, 1)), SetHead(Add32(head, RecLen(r)));
      PutRecord(r, text, padded);
      Commit(r);
      ApplyAllConcat(img0, ps, [sq, hd]);
    }

    /** The three pieces of a record, behind the committed head. */
    method PutRecord(r: Record, text: seq<byte>, padded: nat)
      requires Valid() && RecordOk(r) && r.body == BodyOf(text) && padded == |r.body| && |text| <= MSG_MAX
      modifies this`stores, data
      ensures var ps := PutStores(data.Length, head, EncodeRecord(r));
              stores == old(stores) + ps && Img() == ApplyAll(old(Img()), ps)
    {
      hide ApplyAll, PutStores, EncodeHeader, RecordOk;
      ghost var img0, n, h := Img(), data.Length, head;
      var stored := |text| + 1;
      ghost var hdr, txt, pad := EncodeHeader(r), text + [0], Zeros(padded - stored);
      ghost var a, b, c := PutStores(n, h, hdr), PutStores(n, Add32(h, HDR_SIZE), txt), PutStores(n, Add32(h, HDR_SIZE + stored), pad);
      RingPut(head, EncodeHeader(r));
      RingPut(Add32(head, HDR_SIZE), text + [0]);
      ApplyAllConcat(img0, a, b);
      if padded > stored {
        RingPut(Add32(head, HDR_SIZE + stored), Zeros(padded - stored));
      } else {
        assert c == [];
        ApplyNone(Img());
      }
      ApplyAllConcat(img0, a + b, c);
      PutSplit(n, h, hdr, txt);
      PutSplit(n, h, hdr + txt, pad);
      assert hdr + txt + pad == EncodeRecord(r);
      assert stores == old(stores) + (a + b + c);
    }

    /** The sequence number is bumped before the head makes the record visible. */
    method Commit(r: Record)
      requires Valid() && RecordOk(r)
      modifies this`head, this`seqNo, this`stores
      ensures var ss := [SetSeq(Add32(r.seqNo, 1)), SetHead(Add32(old(head), RecLen(r)))];
              stores == old(stores) + ss && Img() == ApplyAll(old(Img()), ss)
    {
      hide ApplyAll;
      ghost var img := Img();
      ghost var sq, hd := SetSeq(Add32(r.seqNo, 1)), SetHead(Add32(head, RecLen(r)));
      StoreSeq(Add32(r.seqNo, 1));
      StoreHead(Add32(head, RecLen(r)));
      ApplyOne(img, sq);
      ApplyOne(Apply(img, sq), hd);
      ApplyAllConcat(img, [sq], [hd]);
      assert [sq] + [hd] == [sq, hd];
    }

    method Clear()
      requires Valid()
      modifies this`tail, this`stores
      ensures stores == old(stores) + [SetTail(head)] && Img() == Apply(old(Img()), SetTail(head))
      ensures tail == head
    {
      StoreTail(head);
    }

    /** Validate the ring and walk it, or start afresh; then log the boot marker. */
    method Init(ts: u32, text: seq<byte>)
      requires Valid() && |text| <= MSG_MAX
      modifies this, data
      ensures Valid() && ready && threshold == LEVEL_INF
      ensures old(HeaderValid(Img())) ==>
                var ss := OpStores(old(Img()), Boot(ts, text));
                Img() == ApplyAll(old(Img()), ss) && stores == old(stores) + ss
      ensures !old(HeaderValid(Img())) ==>
                var ss := RebootStores(data.Length, MakeRecord(LEVEL_INF, ts, 0, BOOT_TAG, text));
                Img() == ApplyAll(old(Img()), ss) && stores == old(stores) + ss
    {
      hide ApplyAll, WriteStores, Walk, MakeRecord, Phys, BOOT_TAG, Booted, BootStores;
      ghost var img0 := Img();
      var valid := magic == LOG_MAGIC && version == LOG_VERSION && size == data.Length &&
                   head % 4 == 0 && tail % 4 == 0 && Sub32(head, tail) <= size;
      if valid {
        Adopt();
      } else {
        Format();
      }
      threshold := LEVEL_INF;
      ready := true;
      ghost var img2 := Img();
      Write(LEVEL_INF, ts, BOOT_TAG, text);
      if valid {
        BootComposed(img0, img2, MakeRecord(LEVEL_INF, ts, img0.seqNo, BOOT_TAG, text), old(stores));
      } else {
        RebootComposed(img0, img2, MakeRecord(LEVEL_INF, ts, 0, BOOT_TAG, text), old(stores));
      }
    }

    /** A ring that did not survive starts empty: everything is wiped from the first word on,
        and the header named again. */
    method Format()
      requires Valid()
      modifies this`magic, this`version, this`size, this`head, this`tail, this`seqNo, this`bootCount, this`stores, data
      ensures Valid() && Img() == Fresh(data.Length) == ApplyAll(old(Img()), FormatStores(data.Length))
      ensures stores == old(stores) + FormatStores(data.Length)
    {
      hide ApplyAll, Geometry, BLANK, Names;
      GeometrySmall(data.Length);
      FormatDone(Img());
      BlankHeader();
      Erase();
      NameHeader();
      assert stores == old(stores) + (BLANK + Wipe(data.Length) + Names(data.Length));
    }

    method BlankHeader()
      modifies this`magic, this`version, this`size, this`head, this`tail, this`seqNo, this`bootCount, this`stores
      ensures Img() == Image(0, 0, 0, 0, 0, 0, 0, data[..]) && stores == old(stores) + BLANK
    {
      ghost var first, rest := [SetMagic(0), SetVersion(0), SetSize(0)], [SetHead(0), SetTail(0), SetSeq(0), SetBoots(0)];
      BlankNames();
      BlankOffsets();
      assert first + rest == BLANK && (old(stores) + first) + rest == old(stores) + (first + rest);
    }

    method BlankNames()
      modifies this`magic, this`version, this`size, this`stores
      ensures magic == version == size == 0 && stores == old(stores) + [SetMagic(0), SetVersion(0), SetSize(0)]
    {
      StoreMagic(0);
      StoreVersion(0);
      StoreSize(0);
    }

    method BlankOffsets()
      modifies this`head, this`tail, this`seqNo, this`bootCount, this`stores
      ensures head == tail == seqNo == bootCount == 0
      ensures stores == old(stores) + [SetHead(0), SetTail(0), SetSeq(0), SetBoots(0)]
    {
      StoreHead(0);
      StoreTail(0);
      StoreSeq(0);
      StoreBoots(0);
    }

    method NameHeader()
      requires data.Length < TWO32
      modifies this`magic, this`version, this`size, this`bootCount, this`stores
      ensures magic == LOG_MAGIC && version == LOG_VERSION && size == data.Length && bootCount == 1
      ensures stores == old(stores) + Names(data.Length)
    {
      StoreMagic(LOG_MAGIC);
      StoreVersion(LOG_VERSION);
      StoreSize(data.Length);
      StoreBoots(1);
    }

    /** Keep the ring that survived the reset, cut at the first malformed entry. */
    method Adopt()
      requires Valid() && size == data.Length
      modifies this`head, this`bootCount, this`stores
      ensures stores == old(stores) + BootStores(old(Img()))
      ensures Img() == ApplyAll(old(Img()), BootStores(old(Img()))) == Booted(old(Img()))
    {
      hide ApplyAll, Walk, Phys;
      ghost var img0 := Img();
      var pos := BootWalk();
      ghost var hd, bt := SetHead(pos), SetBoots(Add32(bootCount, 1));
      StoreHead(pos);
      ghost var img1 := Img();
      bootCount := Add32(bootCount, 1);
      stores := stores + [bt];
      ApplyOne(img0, hd);
      ApplyOne(img1, bt);
      ApplyAllConcat(img0, [hd], [bt]);
      assert [hd] + [bt] == BootStores(img0);
    }

    method Erase()
      modifies data, this`stores
      ensures data[..] == Zeros(data.Length) && stores == old(stores) + Wipe(data.Length)
    {
      for i := 0 to data.Length
        invariant forall k :: 0 <= k < i ==> data[k] == 0
        invariant stores == old(stores) + Wipe(i)
      {
        data[i] := 0;
        stores := stores + [SetByte(i, 0)];
        assert Wipe(i) + [SetByte(i, 0)] == Wipe(i + 1);
      }
    }

    /** The test of the leading word at @p pos that the boot walk and the iterator share. */
    method Inspect(pos: u32) returns (ok: bool, skip: bool, total: u16)
      requires Valid()
      ensures var w0 := WordAt(Img(), pos);
              total == Total(w0) && skip == (Level(w0) == LEVEL_SKIP) && ok == WalkOk(w0, Phys(data.Length, pos), data.Length)
    {
      hide Phys, FromLe32;
      var b := RingGet(pos, 4);
      var w0 := FromLe32(b);
      var p := Index(pos);
      total := Total(w0);
      skip := Level(w0) == LEVEL_SKIP;
      if Magic(w0) != REC_MAGIC || total % 4 != 0 {
        ok := false;
      } else if skip {
        ok := total >= 4 && p + total == data.Length;
      } else {
        ok := REC_MIN <= total <= REC_MAX && p + total <= data.Length;
      }
    }

    /** Walk tail to head and stop at the first malformed entry. */
    method BootWalk() returns (pos: u32)
      requires Valid() && size == data.Length
      ensures pos == Walk(Img(), tail)
    {
      hide Phys, WordAt, WalkOk;
      pos := tail;
      while pos != head
        invariant Walk(Img(), pos) == Walk(Img(), tail)
        decreases if Sub32(head, pos) <= size then Sub32(head, pos) else 0
      {
        if Sub32(head, pos) > size {
          break;
        }
        var ok, _, total := Inspect(pos);
        if !ok {
          break;
        }
        WalkOkLength(Img(), pos);
        pos := Add32(pos, total);
      }
    }

    /** The snapshot: the cursor at the tail, the end at the head. On a good ring the pass
        starts well placed. */
    method IterStart(it: Cursor, ghost q: Queue)
      requires Valid()
      modifies it
      ensures it.pos == tail && it.end == head
      ensures Rep(Img(), q) ==>
                it.pos == q.base % TWO32 && it.end == End(q) % TWO32 && CursorOk(q, q.base, End(q))
    {
      hide Geometry, HeaderOk, Holds;
      it.pos := tail;
      it.end := head;
      BoundaryRange(q, q.base);
    }

    /** One turn of the loop of `log_iter_next`, on any memory. */
    method OneTurn(it: Cursor) returns (t: Turn)
      requires Valid()
      modifies it`pos
      ensures t == Turn32(Img(), old(it.pos), it.end) && it.pos == t.pos
    {
      hide Phys, WordAt, WalkOk, Signed32;
      if Signed32(Sub32(it.pos, tail)) < 0 {
        it.pos := tail;
      }
      if Signed32(Sub32(it.pos, it.end)) >= 0 { return Stopped(it.pos); }
      var ok, skip, total := Inspect(it.pos);
      if !ok { return Stopped(it.pos); }
      var at := it.pos;
      it.pos := Add32(it.pos, total);
      t := if skip then Passed(it.pos) else Found(at, it.pos);
    }

    /** Copy out the next record of the pass.  @p prev is the caller's text buffer.  On any
        memory, with the snapshot's end in reach of the tail so that the loop ends, the result
        is that of the turns. On an intact ring, for the ghost queue it stands for and the
        cursor's unbounded offsets, that is the unbounded step, and the cursor is well placed
        for the next call. */
    method IterNextRecord(it: Cursor, prev: seq<byte>, ghost q: Queue, ghost pos: nat, ghost end: nat)
      returns (got: bool, out: Shown)
      requires Valid() && InReach(tail, it.end) && |prev| == MSG_MAX + 1
      modifies it`pos
      ensures var c := Next32(Img(), old(it.pos), it.end, TURNS);
              it.pos == c.pos && got == c.got.Some? && (got ==> out == ShownAt(data[..], c.got.value, prev))
      ensures Rep(Img(), q) && CursorOk(q, pos, end) && old(it.pos) == pos % TWO32 && it.end == end % TWO32 ==>
                var (next, found) := IterNext(q, pos, end);
                && it.pos == next % TWO32 && got == found.Some? && CursorOk(q, next, end)
                && (got ==> RecordOk(found.value) && out == Show(found.value, prev))
    {
      hide Rep, IterNext, CursorOk, Phys, EntryAt, Show, ShownAt, RecordOk, Turn32, InReach, Left, Next32;
      ghost var start := it.pos;
      got, out := Search(it, prev);
      if Rep(Img(), q) && CursorOk(q, pos, end) && start == pos % TWO32 && it.end == end % TWO32 {
        EnoughTurnsOk(Img(), q, pos, end);
        CallAgrees(Img(), q, pos, end, TURNS);
        ghost var found := IterNext(q, pos, end).1;
        if got { ShownIsShow(data[..], Next32(Img(), start, it.end, TURNS).got.value, found.value, prev); }
      }
    }

    /** The loop of `log_iter_next`. */
    method Search(it: Cursor, prev: seq<byte>) returns (got: bool, out: Shown)
      requires Valid() && InReach(tail, it.end) && |prev| == MSG_MAX + 1
      modifies it`pos
      ensures var c := Next32(Img(), old(it.pos), it.end, TURNS);
              it.pos == c.pos && got == c.got.Some? && (got ==> out == ShownAt(data[..], c.got.value, prev))
    {
      hide Turn32, InReach, Left, ShownAt, Phys, EntryAt;
      got, out := false, Shown(0, 0, 0, [], prev);
      ghost var turns: nat := TURNS;
      LeftBounded(tail, it.pos, it.end);
      while true
        invariant turns > Left(tail, it.pos, it.end) && !got
        invariant Next32(Img(), it.pos, it.end, turns) == Next32(Img(), old(it.pos), it.end, TURNS)
        decreases turns
      {
        TurnShrinks(Img(), it.pos, it.end);
        var t := OneTurn(it);
        match t {
          case Stopped(_) => return;
          case Passed(_) => turns := turns - 1;
          case Found(off, _) =>
            out := ReadRecord(off, prev);
            got := true;
            return;
        }
      }
    }

    /** Copy the header and the text of the record at @p pos out of the ring. */
    method ReadRecord(pos: u32, prev: seq<byte>) returns (out: Shown)
      requires Valid() && |prev| == MSG_MAX + 1
      ensures out == ShownAt(data[..], pos, prev)
      ensures forall r: Record :: EntryAt(data[..], Phys(data.Length, pos), Rec(r)) ==> RecordOk(r) && out == Show(r, prev)
    {
      hide Phys, Total, FromLe32, EntryAt, Show, RecordOk;
      var h := RingGet(pos, HDR_SIZE);
      var w0 := RingGet(pos, 4);
      var total := Total(FromLe32(w0));
      var tlen := if total < HDR_SIZE then 0 else Min(total - HDR_SIZE, MSG_MAX + 1);
      var text := RingGet(Add32(pos, HDR_SIZE), tlen);
      out := Shown(FromLe32(h[4..8]), FromLe32(h[8..12]), h[2], h[12..20] + [0], (text + prev[tlen..])[MSG_MAX := 0]);
      forall r: Record | EntryAt(data[..], Phys(data.Length, pos), Rec(r)) ensures RecordOk(r) && out == Show(r, prev) {
        ShownIsShow(data[..], pos, r, prev);
      }
    }
  }

  lemma WalkOkLength(img: Image, pos: u32)
    requires 4 <= |img.data|
    ensures var w0 := WordAt(img, pos); WalkOk(w0, Phys(|img.data|, pos), |img.data|) ==> 4 <= Total(w0)
  {
  }

  lemma MadeRecord(level: byte, ts: u32, seqNo: u32, tag: seq<byte>, text: seq<byte>)
    requires level <= LEVEL_DBG && |text| <= MSG_MAX
    ensures var r := MakeRecord(level, ts, seqNo, tag, text);
            RecordOk(r) && r.body == BodyOf(text) && r.seqNo == seqNo
  {
  }

  lemma ApplyNone(img: Image)
    requires 0 < |img.data|
    ensures ApplyAll(img, []) == img
  {
  }

  /** Two consecutive `ring_put`s are one. */
  lemma PutSplit(n: nat, h: u32, a: seq<byte>, b: seq<byte>)
    requires Geometry(n) && |a| + |b| <= n
    ensures PutStores(n, h, a + b) == PutStores(n, h, a) + PutStores(n, Add32(h, |a|), b)
  {
    hide Phys;
    PhysAddWord(n, h, |a|);
    var ab, pa, pb := PutStores(n, h, a + b), PutStores(n, h, a), PutStores(n, Add32(h, |a|), b);
    forall k | 0 <= k < |ab| ensures ab[k] == (pa + pb)[k] {
      assert ab[k] == SetByte(Wrap(n, Phys(n, h) + k), (a + b)[k]);
      if k >= |a| {
        assert pb[k - |a|] == SetByte(Wrap(n, Phys(n, Add32(h, |a|)) + (k - |a|)), b[k - |a|]);
      }
    }
  }
}
