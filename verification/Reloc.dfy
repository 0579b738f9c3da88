/** The bounded verifier for relocatable model binaries (port/nn/nn_stedgeai_reloc.c): it
    accepts exactly the files that pass its checks, reads only inside the file, and what it
    accepts the loader can follow without leaving the file or the RAM image. */
module Reloc {
  import opened Machine

  const HEADER := 100
  const MAGIC: u32 := 0x4E49424E

  /** The RT-RAM slot and the size of the loader library's runtime context. */
  datatype Limits = Limits(ram: u32, context: u32)

  type u64 = x: int | 0 <= x < 0x1_0000_0000_0000_0000

  /** An encoded offset: the class in the top four bits. */
  function Off(x: u32): (o: u32)
    ensures o < 0x1000_0000
  {
    x % 0x1000_0000
  }

  predicate IsRam(x: u32) { x / 0x1000_0000 == 8 }

  predicate IsFlash(x: u32) { x / 0x1000_0000 == 2 }

  /** The little-endian word at @p off. */
  function Word(b: seq<byte>, off: nat): u32
    requires off + 4 <= |b|
  {
    b[off] as int + 0x100 * b[off + 1] as int + 0x1_0000 * b[off + 2] as int + 0x100_0000 * b[off + 3] as int
  }

  datatype Header = Header(magic: u32, flags: u32,
                           dataStart: u32, dataEnd: u32, dataData: u32, bssStart: u32, bssEnd: u32,
                           gotStart: u32, gotEnd: u32, relStart: u32, relEnd: u32, wStart: u32, wEnd: u32,
                           create: u32, initV2: u32, run: u32, report: u32, error: u32, destroy: u32, ctx: u32)

  function HeaderOf(b: seq<byte>): Header
    requires |b| >= HEADER
  {
    Header(Word(b, 0), Word(b, 4),
           Word(b, 8), Word(b, 12), Word(b, 16), Word(b, 20), Word(b, 24),
           Word(b, 28), Word(b, 32), Word(b, 36), Word(b, 40), Word(b, 44), Word(b, 48),
           Word(b, 52), Word(b, 60), Word(b, 64), Word(b, 68), Word(b, 72), Word(b, 76), Word(b, 96))
  }

  function Entries(h: Header): (e: seq<u32>)
    ensures |e| == 6
  {
    [h.create, h.initV2, h.run, h.report, h.error, h.destroy]
  }

  // ---- the checks ---------------------------------------------------------------------

  /** Cortex-M7, FPU, hard float. */
  predicate VariantOk(h: Header) {
    h.magic == MAGIC && h.flags % 0x1000 == 0xC27 && h.flags / 0x1000 % 2 == 1 && h.flags / 0x2000 % 4 == 2
  }

  predicate ClassesOk(h: Header) {
    && IsRam(h.dataStart) && IsRam(h.dataEnd) && IsRam(h.gotStart) && IsRam(h.gotEnd)
    && IsRam(h.bssStart) && IsRam(h.bssEnd)
    && IsFlash(h.dataData) && IsFlash(h.relStart) && IsFlash(h.relEnd) && IsFlash(h.wStart) && IsFlash(h.wEnd)
  }

  predicate Aligned(x: u32) { Off(x) % 4 == 0 }

  predicate AlignmentOk(h: Header) {
    && Aligned(h.dataData) && Aligned(h.relStart) && Aligned(h.relEnd) && Aligned(h.wStart) && Aligned(h.wEnd)
    && Aligned(h.dataStart) && Aligned(h.dataEnd) && Aligned(h.gotStart) && Aligned(h.gotEnd)
    && Aligned(h.bssStart) && Aligned(h.bssEnd)
  }

  predicate SectionsOk(h: Header, len: nat, lim: Limits) {
    && Off(h.dataData) <= Off(h.relStart) <= Off(h.relEnd) <= len
    && Off(h.wStart) <= Off(h.wEnd) <= len
    && Off(h.dataStart) <= Off(h.dataEnd) <= Off(h.gotStart) <= Off(h.gotEnd) <= Off(h.bssStart) <= Off(h.bssEnd)
    && (Off(h.bssEnd) + 3) / 4 * 4 <= lim.ram
    && Off(h.dataData) + Off(h.bssStart) <= len
  }

  predicate EntryOk(e: u32, dataD: nat) {
    IsFlash(e) && Off(e) % 2 == 1 && HEADER <= Off(e) - 1 < dataD
  }

  predicate ContextOk(h: Header, len: nat, lim: Limits) {
    var ctx := Off(h.ctx);
    && IsRam(h.ctx) && ctx % 4 == 0 && ctx >= Off(h.dataStart)
    && ctx + lim.context <= Off(h.bssStart)
    && Off(h.dataData) + (ctx - Off(h.dataStart)) + lim.context <= len
  }

  predicate FixedOk(h: Header, len: nat, lim: Limits) {
    && VariantOk(h) && ClassesOk(h) && AlignmentOk(h) && SectionsOk(h, len, lim)
    && (forall i :: 0 <= i < 6 ==> EntryOk(Entries(h)[i], Off(h.dataData)))
    && ContextOk(h, len, lim)
  }

  /** Where the GOT's image lies in the file. */
  function GotBase(h: Header): nat
    requires Off(h.dataStart) <= Off(h.gotStart)
  {
    Off(h.dataData) + (Off(h.gotStart) - Off(h.dataStart))
  }

  predicate PointerOk(v: u32, h: Header, len: nat) {
    v == 0 || (IsRam(v) && Off(v) < Off(h.bssEnd)) || (IsFlash(v) && Off(v) < len)
  }

  /** The @p k-th word of a table at @p base. */
  function Entry(b: seq<byte>, base: nat, k: nat): u32
    requires base + 4 * k + 4 <= |b|
  {
    Word(b, base + 4 * k)
  }

  ghost predicate GotOk(b: seq<byte>, h: Header)
    requires Off(h.dataStart) <= Off(h.gotStart) <= Off(h.gotEnd)
  {
    var n := Off(h.gotEnd) - Off(h.gotStart);
    && GotBase(h) + n <= |b|
    && forall k: nat :: 4 * k + 4 <= n ==> PointerOk(Entry(b, GotBase(h), k), h, |b|)
  }

  predicate TargetOk(add: u32, h: Header) { IsRam(add) && Off(add) + 4 <= Off(h.bssEnd) }

  ghost predicate RelOk(b: seq<byte>, h: Header)
    requires Off(h.relEnd) <= |b|
  {
    forall k: nat :: Off(h.relStart) + 4 * k + 4 <= Off(h.relEnd) ==> TargetOk(Entry(b, Off(h.relStart), k), h)
  }

  /** The files the verifier accepts. */
  ghost predicate Accepts(b: seq<byte>, lim: Limits) {
    && |b| >= HEADER
    && var h := HeaderOf(b);
       FixedOk(h, |b|, lim) && GotOk(b, h) && RelOk(b, h)
  }

  // ---- the verifier --------------------------------------------------------------------

  /** A word of the file `buf[..len]`. */
  method Rd32(buf: array<byte>, len: nat, off: u32) returns (v: u32)
    requires off + 4 <= len <= buf.Length
    ensures v == Word(buf[..len], off)
  {
    v := buf[off] as int + 0x100 * buf[off + 1] as int + 0x1_0000 * buf[off + 2] as int + 0x100_0000 * buf[off + 3] as int;
  }

  /** The six dispatched entry points. */
  method CheckEntries(h: Header) returns (ok: bool)
    ensures ok <==> forall i :: 0 <= i < 6 ==> EntryOk(Entries(h)[i], Off(h.dataData))
  {
    hide EntryOk;
    var i := 0;
    while i < 6
      invariant 0 <= i <= 6 && forall j :: 0 <= j < i ==> EntryOk(Entries(h)[j], Off(h.dataData))
    {
      if !EntryOk(Entries(h)[i], Off(h.dataData)) { return false; }
      i := i + 1;
    }
    ok := true;
  }

  /** The GOT image: every word is read at an offset that is a 32-bit number inside the
      file. */
  method CheckGot(buf: array<byte>, len: nat, h: Header) returns (ok: bool)
    requires len <= buf.Length && len < TWO32 && Off(h.dataStart) <= Off(h.gotStart) <= Off(h.gotEnd)
    ensures ok <==> GotOk(buf[..len], h)
  {
    hide Word, PointerOk, Off;
    var base: u32 := Off(h.dataData) + (Off(h.gotStart) - Off(h.dataStart));
    var n: u32 := Off(h.gotEnd) - Off(h.gotStart);
    if base + n > len { return false; }
    ok := CheckGotWords(buf, len, h, base, n);
  }

  method CheckGotWords(buf: array<byte>, len: nat, h: Header, base: u32, n: u32) returns (ok: bool)
    requires base + n <= len <= buf.Length && len < TWO32 && n < 0x1000_0000
    ensures ok <==> forall k: nat :: 4 * k + 4 <= n ==> PointerOk(Entry(buf[..len], base, k), h, len)
  {
    hide Word, PointerOk;
    var o: u32 := 0;
    ghost var i: nat := 0;
    var more: u32 := o + 4;
    while more <= n
      invariant o == 4 * i && more == o + 4 && o <= n
      invariant forall k: nat :: k < i ==> PointerOk(Entry(buf[..len], base, k), h, len)
      decreases n - o
    {
      var at: u32 := base + o;
      var v := Rd32(buf, len, at);
      assert v == Entry(buf[..len], base, i);
      if !PointerOk(v, h, len) { return false; }
      o, i := more, i + 1;
      more := o + 4;
    }
    ok := true;
  }

  /** The relocation table. */
  method CheckRel(buf: array<byte>, len: nat, h: Header) returns (ok: bool)
    requires len <= buf.Length && len < TWO32 && Off(h.relStart) <= Off(h.relEnd) <= len
    ensures ok <==> RelOk(buf[..len], h)
  {
    hide Word, TargetOk, Off;
    var start, end := Off(h.relStart), Off(h.relEnd);
    var off := start;
    ghost var i: nat := 0;
    var more: u32 := off + 4;
    while more <= end
      invariant off == start + 4 * i && more == off + 4 && off <= end
      invariant forall k: nat :: k < i ==> TargetOk(Entry(buf[..len], start, k), h)
      decreases end - off
    {
      var add := Rd32(buf, len, off);
      assert add == Entry(buf[..len], start, i);
      if !TargetOk(add, h) { return false; }
      off, i := more, i + 1;
      more := off + 4;
    }
    ok := true;
  }

  /** The order and the bounds of the sections, on 32-bit words but for the last sum. */
  method CheckSections(h: Header, len: u32, lim: Limits) returns (ok: bool)
    ensures ok <==> SectionsOk(h, len, lim)
  {
    hide Off;
    var dataS, dataE, dataD := Off(h.dataStart), Off(h.dataEnd), Off(h.dataData);
    var bssS, bssE, gotS, gotE := Off(h.bssStart), Off(h.bssEnd), Off(h.gotStart), Off(h.gotEnd);
    var relS, relE, wS, wE := Off(h.relStart), Off(h.relEnd), Off(h.wStart), Off(h.wEnd);
    if !(dataD <= relS && relS <= relE && relE <= len) { return false; }
    if !(wS <= wE && wE <= len) { return false; }
    var tail: u32 := if relE > wE then relE else wE;
    if tail > len { return false; }
    if !(dataS <= dataE && dataE <= gotS && gotS <= gotE && gotE <= bssS && bssS <= bssE) { return false; }
    var up: u32 := bssE + 3;
    var reqRam: u32 := up - up % 4;
    if reqRam > lim.ram { return false; }
    var copied: u64 := dataD + bssS;
    ok := copied <= len;
  }

  /** The runtime context: in the initialised part of the RW image and in the file. */
  method CheckContext(h: Header, len: u32, lim: Limits) returns (ok: bool)
    ensures ok <==> ContextOk(h, len, lim)
  {
    hide Off, IsRam;
    var ctx, dataS := Off(h.ctx), Off(h.dataStart);
    if !IsRam(h.ctx) || ctx % 4 != 0 || ctx < dataS { return false; }
    var end: u64 := ctx + lim.context;
    if end > Off(h.bssStart) { return false; }
    var into: u32 := ctx - dataS;
    var last: u64 := Off(h.dataData) + into + lim.context;
    ok := last <= len;
  }

  /** The header of the file `buf[..len]`. */
  method ReadHeader(buf: array<byte>, len: u32) returns (h: Header)
    requires HEADER <= len <= buf.Length
    ensures h == HeaderOf(buf[..len])
  {
    hide Word;
    var magic := Rd32(buf, len, 0);
    var flags := Rd32(buf, len, 4);
    var dataStart := Rd32(buf, len, 8);
    var dataEnd := Rd32(buf, len, 12);
    var dataData := Rd32(buf, len, 16);
    var bssStart := Rd32(buf, len, 20);
    var bssEnd := Rd32(buf, len, 24);
    var gotStart := Rd32(buf, len, 28);
    var gotEnd := Rd32(buf, len, 32);
    var relStart := Rd32(buf, len, 36);
    var relEnd := Rd32(buf, len, 40);
    var wStart := Rd32(buf, len, 44);
    var wEnd := Rd32(buf, len, 48);
    var create := Rd32(buf, len, 52);
    var initV2 := Rd32(buf, len, 60);
    var run := Rd32(buf, len, 64);
    var report := Rd32(buf, len, 68);
    var error := Rd32(buf, len, 72);
    var destroy := Rd32(buf, len, 76);
    var ctx := Rd32(buf, len, 96);
    h := Header(magic, flags, dataStart, dataEnd, dataData, bssStart, bssEnd, gotStart, gotEnd, relStart, relEnd,
                wStart, wEnd, create, initV2, run, report, error, destroy, ctx);
  }

  /** `reloc_bin_verify` for a buffer at address @p addr: every read is inside `buf[..len]`, and
      no sum leaves the 32 or 64 bits the code forms it in. */
  method Verify(buf: array<byte>, addr: u32, len: u32, lim: Limits) returns (ok: bool)
    requires len <= buf.Length
    ensures ok <==> addr % 4 == 0 && Accepts(buf[..len], lim)
  {
    hide Word, VariantOk, ClassesOk, AlignmentOk, EntryOk, ContextOk, SectionsOk, GotOk, RelOk, HeaderOf;
    if len < HEADER || addr % 4 != 0 { return false; }
    var h := ReadHeader(buf, len);
    if !VariantOk(h) || !ClassesOk(h) || !AlignmentOk(h) { return false; }
    var sections := CheckSections(h, len, lim);
    if !sections { return false; }
    SectionsIn(h, len, lim);
    var entries := CheckEntries(h);
    if !entries { return false; }
    var context := CheckContext(h, len, lim);
    if !context { return false; }
    var got := CheckGot(buf, len, h);
    if !got { return false; }
    ok := CheckRel(buf, len, h);
  }

  lemma SectionsIn(h: Header, len: nat, lim: Limits)
    requires SectionsOk(h, len, lim)
    ensures Off(h.dataStart) <= Off(h.gotStart) <= Off(h.gotEnd) && Off(h.relStart) <= Off(h.relEnd) <= len
  {
  }

  // ---- what acceptance means ---------------------------------------------------------------

  /** The file bytes the loader reads: header, data image, GOT, relocation table, runtime
      context and weights. */
  predicate LoaderReads(h: Header, lim: Limits, off: int) {
    || 0 <= off < HEADER
    || Off(h.dataData) <= off < Off(h.dataData) + Off(h.bssStart)
    || Off(h.dataData) + Off(h.gotStart) - Off(h.dataStart) <= off < Off(h.dataData) + Off(h.gotEnd) - Off(h.dataStart)
    || Off(h.relStart) <= off < Off(h.relEnd)
    || Off(h.dataData) + Off(h.ctx) - Off(h.dataStart) <= off < Off(h.dataData) + Off(h.ctx) - Off(h.dataStart) + lim.context
    || Off(h.wStart) <= off < Off(h.wEnd)
  }

  /** The RAM bytes the loader writes: the RW image, and the word each relocation names. */
  ghost predicate LoaderWrites(b: seq<byte>, h: Header, at: int)
    requires Off(h.relEnd) <= |b|
  {
    || 0 <= at < Off(h.bssEnd)
    || exists k: nat :: Off(h.relStart) + 4 * k + 4 <= Off(h.relEnd)
                        && Off(Entry(b, Off(h.relStart), k)) <= at < Off(Entry(b, Off(h.relStart), k)) + 4
  }

  /** A file that is accepted keeps the loader inside the file and the RT-RAM slot, and its
      six entry points are Thumb addresses between the header and the data image. */
  lemma Sound(b: seq<byte>, lim: Limits)
    requires Accepts(b, lim)
    ensures var h := HeaderOf(b);
            && Off(h.relEnd) <= |b|
            && (forall off :: LoaderReads(h, lim, off) ==> 0 <= off < |b|)
            && (forall at :: LoaderWrites(b, h, at) ==> 0 <= at < lim.ram)
            && (forall e <- Entries(h) :: Off(e) % 2 == 1 && HEADER <= Off(e) - 1 < Off(h.dataData) <= |b|)
  {
    hide Word, VariantOk, ClassesOk, GotOk;
    var h := HeaderOf(b);
    forall e | e in Entries(h) ensures EntryOk(e, Off(h.dataData)) {
      var i :| 0 <= i < 6 && Entries(h)[i] == e;
      assert EntryOk(Entries(h)[i], Off(h.dataData));
    }
    assert GotBase(h) + (Off(h.gotEnd) - Off(h.gotStart)) <= |b| by { GotInside(b, h); }
  }

  lemma GotInside(b: seq<byte>, h: Header)
    requires Off(h.dataStart) <= Off(h.gotStart) <= Off(h.gotEnd) && GotOk(b, h)
    ensures GotBase(h) + (Off(h.gotEnd) - Off(h.gotStart)) <= |b|
  {
  }

  /** After loading, every GOT pointer aims into the RW image or into the file. */
  lemma PointersLand(b: seq<byte>, lim: Limits, k: nat)
    requires Accepts(b, lim)
    requires var h := HeaderOf(b); 4 * k + 4 <= Off(h.gotEnd) - Off(h.gotStart)
    ensures var h := HeaderOf(b);
            && Off(h.dataStart) <= Off(h.gotStart) && GotBase(h) + 4 * k + 4 <= |b|
            && var v := Entry(b, GotBase(h), k);
               v == 0 || (IsRam(v) && Off(v) < lim.ram) || (IsFlash(v) && Off(v) < |b|)
  {
    hide Word, VariantOk, ClassesOk, RelOk, Entry;
    var h := HeaderOf(b);
    assert PointerOk(Entry(b, GotBase(h), k), h, |b|);
  }

  // ---- a file that is accepted ---------------------------------------------------------------

  function Bytes(ws: seq<u32>): (b: seq<byte>)
    ensures |b| == 4 * |ws|
    decreases |ws|
  {
    if ws == [] then [] else Bytes(ws[..|ws| - 1]) + Le32(ws[|ws| - 1])
  }

  lemma WordOfLe(x: u32)
    ensures Word(Le32(x), 0) == x
  {
  }

  lemma {:induction false} WordBack(ws: seq<u32>, i: nat)
    requires i < |ws|
    ensures Word(Bytes(ws), 4 * i) == ws[i]
    decreases |ws|
  {
    hide Le32;
    var k := |ws| - 1;
    var b := Bytes(ws[..k]) + Le32(ws[k]);
    if i < k {
      WordBack(ws[..k], i);
      assert forall j :: 4 * i <= j < 4 * i + 4 ==> b[j] == Bytes(ws[..k])[j];
    } else {
      WordOfLe(ws[k]);
      assert forall j :: 4 * i <= j < 4 * i + 4 ==> b[j] == Le32(ws[k])[j - 4 * i];
    }
  }

  /** A small binary: a code word, two words of data that hold the runtime context, a GOT with a
      pointer into RAM, one into the file and a null one, one relocation, two words of bss and
      one of weights. */
  const MINIMAL: seq<u32> := [
    MAGIC, 0x5C27,
    0x8000_0000, 0x8000_0008, 0x2000_0068, 0x8000_0014, 0x8000_001C, 0x8000_0008, 0x8000_0014,
    0x2000_007C, 0x2000_0080, 0x2000_0080, 0x2000_0084,
    0x2000_0065, 0, 0x2000_0065, 0x2000_0065, 0x2000_0065, 0x2000_0065, 0x2000_0065, 0, 0, 0, 0, 0x8000_0000,
    0, 0, 0,
    0x8000_001B, 0x2000_0083, 0, 0x8000_0018, 0]

  lemma MinimalHeader()
    ensures HeaderOf(Bytes(MINIMAL)) ==
            Header(MAGIC, 0x5C27, 0x8000_0000, 0x8000_0008, 0x2000_0068, 0x8000_0014, 0x8000_001C, 0x8000_0008, 0x8000_0014,
                   0x2000_007C, 0x2000_0080, 0x2000_0080, 0x2000_0084,
                   0x2000_0065, 0x2000_0065, 0x2000_0065, 0x2000_0065, 0x2000_0065, 0x2000_0065, 0x8000_0000)
  {
    hide Bytes, Word;
    var w := MINIMAL;
    WordBack(w, 0); WordBack(w, 1); WordBack(w, 2); WordBack(w, 3); WordBack(w, 4); WordBack(w, 5); WordBack(w, 6);
    WordBack(w, 7); WordBack(w, 8); WordBack(w, 9); WordBack(w, 10); WordBack(w, 11); WordBack(w, 12); WordBack(w, 13);
    WordBack(w, 15); WordBack(w, 16); WordBack(w, 17); WordBack(w, 18); WordBack(w, 19); WordBack(w, 24);
  }

  lemma MinimalWords()
    ensures var b := Bytes(MINIMAL);
            Entry(b, 0x70, 0) == 0x8000_001B && Entry(b, 0x70, 1) == 0x2000_0083 && Entry(b, 0x70, 2) == 0
            && Entry(b, 0x7C, 0) == 0x8000_0018
  {
    hide Bytes, Word;
    var w := MINIMAL;
    WordBack(w, 28); WordBack(w, 29); WordBack(w, 30); WordBack(w, 31);
  }

  lemma MinimalAccepted()
    ensures Accepts(Bytes(MINIMAL), Limits(48 * 1024, 8))
  {
    hide Bytes, Word, Entry;
    MinimalHeader();
    MinimalWords();
    var b := Bytes(MINIMAL);
    var h := HeaderOf(b);
    assert GotBase(h) == 0x70 && Off(h.gotEnd) - Off(h.gotStart) == 12;
    forall k: nat | 4 * k + 4 <= 12 ensures PointerOk(Entry(b, GotBase(h), k), h, |b|) {
      assert k == 0 || k == 1 || k == 2;
    }
    forall k: nat | Off(h.relStart) + 4 * k + 4 <= Off(h.relEnd) ensures TargetOk(Entry(b, Off(h.relStart), k), h) {
      assert k == 0;
    }
  }
}
