/** The boot of a ring that did not survive (svc/log.c): the memory is wiped from its first
    word on and the header written anew, and a reset may come between any two stores. */
module LogFormat {
  import opened Machine
  import opened LogRecord
  import opened LogRing
  import opened LogAppend
  import opened LogBoot
  import opened LogRuns

  /** The wiping of the header, word by word. */
  const BLANK: seq<Store> :=
    [SetMagic(0), SetVersion(0), SetSize(0), SetHead(0), SetTail(0), SetSeq(0), SetBoots(0)]

  /** The wiping of the ring. */
  function Wipe(n: nat): (ss: seq<Store>)
    ensures |ss| == n && forall i :: 0 <= i < n ==> ss[i] == SetByte(i, 0)
  {
    seq(n, i requires 0 <= i < n => SetByte(i, 0))
  }

  /** The new header. */
  function Names(n: u32): seq<Store> { [SetMagic(LOG_MAGIC), SetVersion(LOG_VERSION), SetSize(n), SetBoots(1)] }

  /** All stores of a re-initialisation, in program order. */
  function FormatStores(n: u32): (ss: seq<Store>)
    ensures |ss| == n + 11
  {
    BLANK + Wipe(n) + Names(n)
  }

  /** The empty ring, before and after its boot count is written. */
  function Emptied(n: u32, boots: u32): Image { Fresh(n).(bootCount := boots) }

  // ---- what the stores leave -----------------------------------------------------------

  /** Once the first word is wiped and until the ring's size is back the header is invalid. */
  predicate Unnamed(img: Image) { img.magic == 0 || img.size == 0 }

  lemma UnnamedInvalid(img: Image)
    requires Unnamed(img) && |img.data| > 0
    ensures !HeaderValid(img)
  {
  }

  lemma {:induction false} Wiped(img: Image, j: nat)
    requires j <= |img.data|
    ensures ApplyAll(img, Wipe(|img.data|)[..j]) == img.(data := Zeros(j) + img.data[j..])
    decreases j
  {
    var ss := Wipe(|img.data|);
    if j == 0 {
      assert ss[..0] == [] && Zeros(0) + img.data[0..] == img.data;
    } else {
      Wiped(img, j - 1);
      assert ss[..j] == ss[..j - 1] + [ss[j - 1]];
      ApplyAllConcat(img, ss[..j - 1], [ss[j - 1]]);
      ApplyOne(ApplyAll(img, ss[..j - 1]), ss[j - 1]);
      assert (Zeros(j - 1) + img.data[j - 1..])[j - 1 := 0] == Zeros(j) + img.data[j..];
    }
  }

  lemma Blanked(img: Image)
    ensures ApplyAll(img, BLANK) == Image(0, 0, 0, 0, 0, 0, 0, img.data)
  {
    BlankCut(img, 7);
    assert BLANK[..7] == BLANK;
  }

  /** The header words up to a cut are zero. */
  lemma {:induction false} BlankCut(img: Image, k: nat)
    requires k <= 7
    ensures ApplyAll(img, BLANK[..k]) ==
            Image(if k > 0 then 0 else img.magic, if k > 1 then 0 else img.version, if k > 2 then 0 else img.size,
                  if k > 3 then 0 else img.head, if k > 4 then 0 else img.tail, if k > 5 then 0 else img.seqNo,
                  if k > 6 then 0 else img.bootCount, img.data)
    decreases k
  {
    hide ApplyAll;
    if k == 0 {
      assert BLANK[..0] == [];
      ApplyOne(img, SetMagic(0));
    } else {
      BlankCut(img, k - 1);
      assert BLANK[..k] == BLANK[..k - 1] + [BLANK[k - 1]];
      ApplyAllConcat(img, BLANK[..k - 1], [BLANK[k - 1]]);
      ApplyOne(ApplyAll(img, BLANK[..k - 1]), BLANK[k - 1]);
    }
  }

  lemma {:induction false} NamesCut(img: Image, n: u32, k: nat)
    requires k <= 4
    ensures ApplyAll(img, Names(n)[..k]) ==
            img.(magic := if k > 0 then LOG_MAGIC else img.magic, version := if k > 1 then LOG_VERSION else img.version,
                 size := if k > 2 then n else img.size, bootCount := if k > 3 then 1 else img.bootCount)
    decreases k
  {
    hide ApplyAll;
    var ss := Names(n);
    if k == 0 {
      assert ss[..0] == [];
      ApplyOne(img, SetMagic(0));
    } else {
      NamesCut(img, n, k - 1);
      assert ss[..k] == ss[..k - 1] + [ss[k - 1]];
      ApplyAllConcat(img, ss[..k - 1], [ss[k - 1]]);
      ApplyOne(ApplyAll(img, ss[..k - 1]), ss[k - 1]);
    }
  }

  /** The memory after any number of the stores. */
  function FormatImage(img: Image, n: u32, k: nat): Image
    requires |img.data| == n && k <= n + 11
  {
    if k <= 7 then ApplyAll(img, BLANK[..k])
    else if k <= n + 7 then Image(0, 0, 0, 0, 0, 0, 0, Zeros(k - 7) + img.data[k - 7..])
    else ApplyAll(Image(0, 0, 0, 0, 0, 0, 0, Zeros(n)), Names(n)[..k - n - 7])
  }

  lemma FormatStep(img: Image, n: u32, k: nat)
    requires |img.data| == n && k <= n + 11
    ensures ApplyAll(img, FormatStores(n)[..k]) == FormatImage(img, n, k)
  {
    hide ApplyAll;
    var zero := Image(0, 0, 0, 0, 0, 0, 0, img.data);
    ApplyPrefix(img, BLANK + Wipe(n), Names(n), k);
    Blanked(img);
    Wiped(zero, n);
    assert Wipe(n)[..n] == Wipe(n) && Zeros(n) + img.data[n..] == Zeros(n);
    ApplyAllConcat(img, BLANK, Wipe(n));
    if k <= n + 7 {
      ApplyPrefix(img, BLANK, Wipe(n), k);
      if k > 7 { Wiped(zero, k - 7); }
    }
  }

  /** Re-initialisation cut after any of its stores: until the ring's size is written, which is
      the last store but one, the header is invalid, so the next boot starts afresh; from then
      on the ring is the empty one, in good order. */
  lemma FormatCut(img: Image, k: nat)
    requires Geometry(|img.data|) && !HeaderValid(img) && k <= |img.data| + 11
    ensures var img' := ApplyAll(img, FormatStores(|img.data|)[..k]);
            && |img'.data| == |img.data|
            && (HeaderValid(img') <==> k >= |img.data| + 10)
            && (k >= |img.data| + 10 ==>
                  && img' == Emptied(|img.data|, if k == |img.data| + 11 then 1 else 0)
                  && Good(World(img', Queue(0, []), [], 0)))
  {
    hide ApplyAll, FormatStores;
    var n: u32 := |img.data|;
    FormatStep(img, n, k);
    var img' := FormatImage(img, n, k);
    if k <= 7 {
      BlankCut(img, k);
      if k > 0 { UnnamedInvalid(img'); } else { assert img' == img; }
    } else if k <= n + 7 {
      UnnamedInvalid(img');
    } else {
      NamesCut(Image(0, 0, 0, 0, 0, 0, 0, Zeros(n)), n, k - n - 7);
      if k < n + 10 { UnnamedInvalid(img'); } else { EmptiedGood(n, if k == n + 11 then 1 else 0); }
    }
  }

  lemma EmptiedGood(n: u32, boots: u32)
    requires Geometry(n)
    ensures Good(World(Emptied(n, boots), Queue(0, []), [], 0)) && HeaderValid(Emptied(n, boots))
  {
    hide Geometry;
  }

  lemma FormatDone(img: Image)
    requires |img.data| < TWO32
    ensures ApplyAll(img, FormatStores(|img.data|)) == Fresh(|img.data|)
  {
    hide ApplyAll;
    var n: u32 := |img.data|;
    assert FormatStores(n)[..n + 11] == FormatStores(n);
    FormatStep(img, n, n + 11);
    NamesCut(Image(0, 0, 0, 0, 0, 0, 0, Zeros(n)), n, 4);
  }

  // ---- a whole boot of a ring that did not survive --------------------------------------

  /** The stores of such a boot: the re-initialisation and the marker's append. */
  function RebootStores(n: u32, marker: Record): seq<Store>
    requires 2 * REC_MAX <= n <= TWO31 && RecordOk(marker)
  {
    FormatStores(n) + WriteStores(Fresh(n), marker)
  }

  /** A reset after any of its stores leaves a ring the next boot starts afresh, or a good one:
      empty, or with the marker exactly if the marker's append completed. */
  lemma RebootCut(img: Image, ts: u32, text: seq<byte>, k: nat)
    requires Geometry(|img.data|) && !HeaderValid(img) && |text| <= MSG_MAX
    ensures var n: u32 := |img.data|; var marker := MakeRecord(LEVEL_INF, ts, 0, BOOT_TAG, text);
            && RecordOk(marker) && 2 * REC_MAX <= n <= TWO31
            && var ss := RebootStores(n, marker); var img' := ApplyAll(img, if k < |ss| then ss[..k] else ss);
               && |img'.data| == n && (HeaderValid(img') <==> k >= n + 10)
               && (HeaderValid(img') ==>
                     exists w: World :: Good(w) && w.img == img' && Records(w.q.entries) == if k >= |ss| then [marker] else [])
  {
    hide ApplyAll, FormatStores, WriteStores, Good, HeaderValid, MakeRecord, Records, NextWorld;
    var n: u32 := |img.data|;
    var marker := MakeRecord(LEVEL_INF, ts, 0, BOOT_TAG, text);
    MarkerOk(ts, text);
    var f, ws := FormatStores(n), WriteStores(Fresh(n), marker);
    var ss := f + ws;
    assert ss[..|ss|] == ss;
    var c := if k < |ss| then k else |ss|;
    ApplyPrefix(img, f, ws, c);
    if c <= n + 11 {
      FormatCut(img, c);
      StoresSome(n, marker);
      NoRecords();
      if c >= n + 10 { ghost var w := World(ApplyAll(img, f[..c]), Queue(0, []), [], 0); assert Good(w); }
    } else {
      FormatDone(img);
      FreshMarker(n, ts, text, c - (n + 11));
    }
  }

  lemma MarkerOk(ts: u32, text: seq<byte>)
    requires |text| <= MSG_MAX
    ensures RecordOk(MakeRecord(LEVEL_INF, ts, 0, BOOT_TAG, text))
  {
  }

  lemma NoRecords()
    ensures Records([]) == []
  {
  }

  lemma StoresSome(n: u32, marker: Record)
    requires Geometry(n) && RecordOk(marker)
    ensures |WriteStores(Fresh(n), marker)| >= 2
  {
    hide EvictStores, SkipStores, BodyStores, Geometry;
  }

  /** The marker's append on the fresh ring, cut after @p k of its stores. */
  lemma FreshMarker(n: u32, ts: u32, text: seq<byte>, k: nat)
    requires Geometry(n) && |text| <= MSG_MAX
    ensures RecordOk(MakeRecord(LEVEL_INF, ts, 0, BOOT_TAG, text))
    ensures var marker := MakeRecord(LEVEL_INF, ts, 0, BOOT_TAG, text); var ws := WriteStores(Fresh(n), marker);
            k <= |ws| ==>
              var img' := ApplyAll(Fresh(n), ws[..k]);
              && |img'.data| == n && HeaderValid(img')
              && exists w: World :: Good(w) && w.img == img' && Records(w.q.entries) == if k >= |ws| then [marker] else []
  {
    hide ApplyAll, WriteStores, Good, HeaderValid, MakeRecord, Records, CutQueue, WriteLen;
    var w := World(Fresh(n), Queue(0, []), [], 0);
    var op := Write(LEVEL_INF, ts, BOOT_TAG, text);
    FreshGood(n);
    MarkerOk(ts, text);
    StepKeeps(w, Step(op, k));
    WriteSeen(w, op, k);
    NoRecords();
    var ws := WriteStores(Fresh(n), MakeRecord(LEVEL_INF, ts, 0, BOOT_TAG, text));
    if k <= |ws| {
      assert ws[..|ws|] == ws;
      GoodHeader(NextWorld(w, Step(op, k)));
    }
  }

  lemma GoodHeader(w: World)
    requires Good(w)
    ensures HeaderValid(w.img)
  {
    hide HeaderValid;
    RepIsValid(w.img, w.q);
  }
}
