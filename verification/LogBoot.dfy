/** The boot walk of `log_init` (svc/log.c): it finds the stored head of an intact ring,
    and on arbitrary memory it still only accepts well-shaped entries. */
module LogBoot {
  import opened Machine
  import opened LogRecord
  import opened LogRing
  import opened LogAppend

  // ---- the boot walk -------------------------------------------------------

  /** The boot walk's test of the leading word found at physical offset @p p. */
  predicate WalkOk(w0: u32, p: nat, n: nat) {
    && Magic(w0) == REC_MAGIC && Total(w0) % 4 == 0
    && if Level(w0) == LEVEL_SKIP
       then Total(w0) >= 4 && p + Total(w0) == n
       else REC_MIN <= Total(w0) <= REC_MAX && p + Total(w0) <= n
  }

  /** Where the boot walk started at @p pos stops, whatever the memory holds. */
  function Walk(img: Image, pos: u32): u32
    requires 4 <= |img.data| && img.size <= TWO31
    decreases if Sub32(img.head, pos) <= img.size then Sub32(img.head, pos) else 0
  {
    if pos == img.head || Sub32(img.head, pos) > img.size then pos
    else
      var w0 := WordAt(img, pos);
      if WalkOk(w0, Phys(|img.data|, pos), |img.data|) then Walk(img, Add32(pos, Total(w0))) else pos
  }

  predicate HeaderValid(img: Image) {
    && img.magic == LOG_MAGIC && img.version == LOG_VERSION && img.size == |img.data|
    && img.head % 4 == 0 && img.tail % 4 == 0 && Used(img) <= img.size
  }

  lemma EntryWalks(img: Image, base: nat, e: Entry)
    requires Geometry(|img.data|) && EntryAt(img.data, Phys(|img.data|, base), e)
    ensures var w := WordAt(img, base % TWO32);
            Total(w) == Len(e) && WalkOk(w, Phys(|img.data|, base % TWO32), |img.data|)
  {
    EntryRead(img, base, e);
    hide Phys;
    PhysThroughWord(|img.data|, base);
  }

  /** On a ring that stands for a queue the walk stops exactly at the stored head. */
  lemma {:induction false} WalkExact(img: Image, base: nat, es: seq<Entry>)
    requires HeaderOk(img) && img.head == (base + TotalLen(es)) % TWO32
    requires TotalLen(es) <= |img.data| && Holds(img.data, Phys(|img.data|, base), es)
    ensures Walk(img, base % TWO32) == img.head
    decreases |es|
  {
    hide Phys, EntryAt;
    WordOffsets(base, TotalLen(es));
    if es == [] {
    } else {
      var e := es[0];
      EntryRead(img, base, e);
      EntryWalks(img, base, e);
      WordOffsets(base, Len(e));
      PhysAdd(|img.data|, base, Len(e));
      WalkExact(img, base + Len(e), es[1..]);
    }
  }

  lemma RepIsValid(img: Image, q: Queue)
    requires Rep(img, q)
    ensures HeaderValid(img) && Walk(img, img.tail) == img.head
  {
    hide EntryAt, Phys, Walk, Holds, TotalLen, Geometry;
    WalkExact(img, q.base, q.entries);
    EndAligned(img, q);
    WordAligned(q.base);
    WordAligned(End(q));
    UsedIsTotal(img, q);
  }

  // ---- arbitrary memory ------------------------------------------------------

  function Sum(ts: seq<nat>): nat { if ts == [] then 0 else ts[0] + Sum(ts[1..]) }

  /** From @p pos on, the memory holds well-shaped entries of these lengths. */
  predicate Chain(img: Image, pos: u32, ts: seq<nat>)
    requires 4 <= |img.data|
    decreases |ts|
  {
    ts == [] ||
    (var w0 := WordAt(img, pos);
     WalkOk(w0, Phys(|img.data|, pos), |img.data|) && ts[0] == Total(w0) && Chain(img, Add32(pos, ts[0]), ts[1..]))
  }

  /** A well-shaped entry before the stored head that reaches beyond it. */
  ghost predicate Straddles(img: Image, pos: u32)
    requires 4 <= |img.data|
  {
    exists ts: seq<nat> :: Chain(img, pos, ts) && ts != [] &&
      Sum(ts[..|ts| - 1]) < Sub32(img.head, pos) < Sum(ts)
  }

  lemma {:induction false} SumLast(ts: seq<nat>)
    requires ts != []
    ensures Sum(ts) == Sum(ts[..|ts| - 1]) + ts[|ts| - 1]
  {
    if |ts| > 1 {
      assert ts[1..][..|ts| - 2] == ts[..|ts| - 1][1..];
      SumLast(ts[1..]);
    } else {
      assert ts[1..] == [] && ts[..0] == [];
    }
  }

  lemma OkIsLong(w0: u32, p: nat, n: nat)
    requires WalkOk(w0, p, n)
    ensures Total(w0) >= 4
  {
  }

  /** Whatever the memory holds, everything the walk accepts is a chain of well-shaped
      entries, all of which start before the stored head. */
  lemma {:induction false} WalkIsChain(img: Image, pos: u32) returns (ts: seq<nat>)
    requires 4 <= |img.data| && img.size <= TWO31 && Sub32(img.head, pos) <= img.size
    ensures Chain(img, pos, ts) && Sub32(Walk(img, pos), pos) == Sum(ts)
    ensures ts != [] ==> Sum(ts[..|ts| - 1]) < Sub32(img.head, pos)
    ensures Sum(ts) < Sub32(img.head, pos) + TWO16
    decreases Sub32(img.head, pos)
  {
    hide WordAt, Phys, WalkOk, Level, Magic;
    ts := [];
    if pos == img.head {
    } else {
      var w0 := WordAt(img, pos);
      if WalkOk(w0, Phys(|img.data|, pos), |img.data|) {
        OkIsLong(w0, Phys(|img.data|, pos), |img.data|);
        var next := Add32(pos, Total(w0));
        if Total(w0) <= Sub32(img.head, pos) {
          var rest := WalkIsChain(img, next);
          ts := [Total(w0)] + rest;
          assert ts[1..] == rest;
          if rest != [] {
            assert ts[..|ts| - 1] == [Total(w0)] + rest[..|rest| - 1];
            assert ts[..|ts| - 1][1..] == rest[..|rest| - 1];
          } else {
            assert ts[..0] == [];
          }
        } else {
          ts := [Total(w0)];
          assert ts[1..] == [] && ts[..0] == [];
        }
      }
    }
  }

  lemma {:induction false} ChainIsWalk(img: Image, pos: u32, ts: seq<nat>)
    requires 4 <= |img.data| && img.size <= TWO31 && Sub32(img.head, pos) <= img.size
    requires Chain(img, pos, ts) && ts != []
    requires Sum(ts[..|ts| - 1]) < Sub32(img.head, pos) < Sum(ts)
    ensures Sub32(Walk(img, pos), pos) == Sum(ts) < Sub32(img.head, pos) + TWO16
    decreases |ts|
  {
    hide WordAt, Phys, WalkOk, Level, Magic;
    var next := Add32(pos, ts[0]);
    if |ts| == 1 {
      assert ts[1..] == [] && ts[..0] == [];
      assert Walk(img, next) == next;
    } else {
      assert ts[1..][..|ts| - 2] == ts[..|ts| - 1][1..];
      assert ts[..|ts| - 1][0] == ts[0];
      SumLast(ts[1..]);
      ChainIsWalk(img, next, ts[1..]);
      var w0 := WordAt(img, pos);
      assert Walk(img, pos) == Walk(img, next);
    }
  }

  /** The recovered ring ends at or before the stored head if and only if no accepted entry
      straddles the stored head: the walk never compares an entry's end with it. */
  lemma RecoveredWithinStored(img: Image)
    requires 4 <= |img.data| && HeaderValid(img) && img.size <= TWO31
    ensures Sub32(Walk(img, img.tail), img.tail) <= Used(img) <==> !Straddles(img, img.tail)
  {
    var ts := WalkIsChain(img, img.tail);
    if Sum(ts) > Used(img) {
      assert Straddles(img, img.tail);
    }
    if Straddles(img, img.tail) {
      var us: seq<nat> :| Chain(img, img.tail, us) && us != [] &&
        Sum(us[..|us| - 1]) < Sub32(img.head, img.tail) < Sum(us);
      ChainIsWalk(img, img.tail, us);
    }
  }

  /** An 8 KiB ring whose header passes validation, but whose recovered extent exceeds the
      ring: two SKIP words, one at offset 256 and one at offset 0, with the stored head
      four bytes past the physical end. */
  function GarbageData(): (d: seq<byte>)
    ensures |d| == 8192
    ensures d[0..4] == Lead(8192, LEVEL_SKIP) && d[256..260] == Lead(7936, LEVEL_SKIP)
  {
    Lead(8192, LEVEL_SKIP) + Zeros(252) + Lead(7936, LEVEL_SKIP) + Zeros(7932)
  }

  lemma BootCanOvershoot()
    ensures var img := Image(LOG_MAGIC, LOG_VERSION, 8192, 8196, 256, 0, 0, GarbageData());
            HeaderValid(img) && Sub32(Walk(img, img.tail), img.tail) == 16128 > img.size
  {
    var d := GarbageData();
    var img := Image(LOG_MAGIC, LOG_VERSION, 8192, 8196, 256, 0, 0, d);
    assert Phys(8192, 256) == 256 && Phys(8192, 8192) == 0;
    RingSlice(d, 256, 4);
    RingSlice(d, 8192, 4);
    LeadFields(7936, LEVEL_SKIP);
    LeadFields(8192, LEVEL_SKIP);
    assert Walk(img, 16384) == 16384;
    assert Walk(img, 8192) == 16384;
    assert Walk(img, 256) == 16384;
  }
}
