/** The files that port/nn/nn_stedgeai_reloc.c accepts, told by the words of the file and by the
    two address windows alone: 0x8000_0000 for RAM and 0x2000_0000 for the file. */
module RelocFormat {
  import opened Machine
  import opened Reloc

  /** @p x names offset @p off of the RAM image, or of the file. */
  predicate InRam(x: u32) { 0x8000_0000 <= x < 0x9000_0000 }

  predicate InFile(x: u32) { 0x2000_0000 <= x < 0x3000_0000 }

  /** Word @p i of the header. */
  function Field(b: seq<byte>, i: nat): u32
    requires |b| >= 100 && i < 25
  {
    Word(b, 4 * i)
  }

  /** The offset of a RAM field, or of a field of the file, counted from its window. */
  function Ram(b: seq<byte>, i: nat): int
    requires |b| >= 100 && i < 25
  {
    Field(b, i) - 0x8000_0000
  }

  function File(b: seq<byte>, i: nat): int
    requires |b| >= 100 && i < 25
  {
    Field(b, i) - 0x2000_0000
  }

  /** The magic number, and a Cortex-M7 binary with FPU and the hard-float convention. */
  predicate RightTarget(b: seq<byte>)
    requires |b| >= 100
  {
    Field(b, 0) == 0x4E49_424E && Field(b, 1) % 0x8000 == 0x5C27
  }

  /** Data, bss and GOT bounds in RAM, the data image, relocation and weight bounds in the file,
      all of them aligned. */
  predicate RightWindows(b: seq<byte>)
    requires |b| >= 100
  {
    && RamWord(b, 2) && RamWord(b, 3) && RamWord(b, 5) && RamWord(b, 6) && RamWord(b, 7) && RamWord(b, 8)
    && FileWord(b, 4) && FileWord(b, 9) && FileWord(b, 10) && FileWord(b, 11) && FileWord(b, 12)
  }

  predicate RamWord(b: seq<byte>, i: nat)
    requires |b| >= 100 && i < 25
  {
    InRam(Field(b, i)) && Field(b, i) % 4 == 0
  }

  predicate FileWord(b: seq<byte>, i: nat)
    requires |b| >= 100 && i < 25
  {
    InFile(Field(b, i)) && Field(b, i) % 4 == 0
  }

  /** data <= GOT <= bss in the RAM slot, the initialised part of it in the file, and the relocation
      table behind the data image and the weights in the file. */
  predicate RightSections(b: seq<byte>, ram: u32)
    requires |b| >= 100
  {
    && Ram(b, 2) <= Ram(b, 3) <= Ram(b, 7) <= Ram(b, 8) <= Ram(b, 5) <= Ram(b, 6) <= ram
    && File(b, 4) + Ram(b, 5) <= |b|
    && File(b, 4) <= File(b, 9) <= File(b, 10) <= |b| && File(b, 11) <= File(b, 12) <= |b|
  }

  /** The entry points the runtime calls are odd addresses of the file between the header and the
      data image. */
  predicate RightEntries(b: seq<byte>)
    requires |b| >= 100
  {
    RightEntry(b, 13) && RightEntry(b, 15) && RightEntry(b, 16) && RightEntry(b, 17) && RightEntry(b, 18) && RightEntry(b, 19)
  }

  predicate RightEntry(b: seq<byte>, i: nat)
    requires |b| >= 100 && i < 25
  {
    InFile(Field(b, i)) && Field(b, i) % 2 == 1 && 101 <= File(b, i) <= File(b, 4)
  }

  /** The runtime context: aligned, in the initialised part of RAM, its image in the file. */
  predicate RightContext(b: seq<byte>, context: u32)
    requires |b| >= 100
  {
    && InRam(Field(b, 24)) && Field(b, 24) % 4 == 0
    && Ram(b, 2) <= Ram(b, 24) <= Ram(b, 5) - context
    && File(b, 4) + Ram(b, 24) - Ram(b, 2) + context <= |b|
  }

  /** A GOT word is zero, a RAM address below the end of bss, or a file address inside the file. */
  predicate GoodPointer(b: seq<byte>, v: u32)
    requires |b| >= 100
  {
    v == 0 || (InRam(v) && v < Field(b, 6)) || (InFile(v) && v - 0x2000_0000 < |b|)
  }

  /** The GOT's image lies in the file, and every word of it is good. */
  ghost predicate RightGot(b: seq<byte>)
    requires |b| >= 100 && File(b, 4) >= 0 && Ram(b, 2) <= Ram(b, 7) <= Ram(b, 8)
  {
    var base, n := File(b, 4) + Ram(b, 7) - Ram(b, 2), Ram(b, 8) - Ram(b, 7);
    base + n <= |b| && forall k: nat :: 4 * k + 4 <= n ==> GoodPointer(b, Entry(b, base, k))
  }

  /** Every relocation names a whole RAM word below the end of bss. */
  ghost predicate RightRelocations(b: seq<byte>)
    requires |b| >= 100 && 0 <= File(b, 9) && File(b, 10) <= |b|
  {
    forall k: nat :: File(b, 9) + 4 * k + 4 <= File(b, 10) ==>
      var add := Entry(b, File(b, 9), k); InRam(add) && add + 4 <= Field(b, 6)
  }

  /** A loadable file for a slot of @p ram bytes and a context of @p context bytes. */
  ghost predicate Loadable(b: seq<byte>, ram: u32, context: u32) {
    && |b| >= 100 && RightTarget(b) && RightWindows(b) && RightSections(b, ram) && RightEntries(b)
    && RightContext(b, context) && RightGot(b) && RightRelocations(b)
  }

  // ---- the verifier's checks are these -----------------------------------------------------

  lemma Window(x: u32)
    ensures IsRam(x) <==> InRam(x)
    ensures IsFlash(x) <==> InFile(x)
    ensures InRam(x) ==> Off(x) == x - 0x8000_0000
    ensures InFile(x) ==> Off(x) == x - 0x2000_0000
  {
  }

  lemma Alignment(x: u32)
    ensures Aligned(x) <==> x % 4 == 0
    ensures Off(x) % 4 == x % 4 && Off(x) % 2 == x % 2
  {
    var q := x / 0x1000_0000;
    assert x == 0x1000_0000 * q + Off(x);
    Steps(0x400_0000 * q, Off(x), 4);
    Steps(0x800_0000 * q, Off(x), 2);
  }

  lemma Steps(j: int, r: int, m: nat)
    requires m == 2 || m == 4
    ensures (m * j + r) % m == r % m
  {
  }

  /** The two variant fields above bit 11 are bits 12 and 13 to 14 of the flags. */
  lemma Variant(b: seq<byte>)
    requires |b| >= 100
    ensures VariantOk(HeaderOf(b)) <==> RightTarget(b)
  {
    hide Word;
    FlagBits(Field(b, 1));
  }

  lemma FlagBits(f: u32)
    ensures f % 0x1000 == 0xC27 && f / 0x1000 % 2 == 1 && f / 0x2000 % 4 == 2 <==> f % 0x8000 == 0x5C27
  {
    var q, r := f / 0x8000, f % 0x8000;
    var a, b := r / 0x1000, r % 0x1000;
    BitFields(q, a, b);
    assert a == 2 * (a / 2) + a % 2;
  }

  /** Three fields of 12, 1 and 2 bits below the rest. */
  lemma BitFields(q: nat, a: nat, b: nat)
    requires a < 8 && b < 0x1000
    ensures var f := 0x8000 * q + 0x1000 * a + b;
            f % 0x1000 == b && f / 0x1000 % 2 == a % 2 && f / 0x2000 % 4 == a / 2 && f % 0x8000 == 0x1000 * a + b
  {
    var f := 0x8000 * q + 0x1000 * a + b;
    ModUnique(f, 0x1000, 8 * q + a, b);
    ModUnique(8 * q + a, 2, 4 * q + a / 2, a % 2);
    ModUnique(f, 0x2000, 4 * q + a / 2, 0x1000 * (a % 2) + b);
    ModUnique(4 * q + a / 2, 4, q, a / 2);
    ModUnique(f, 0x8000, q, 0x1000 * a + b);
  }

  lemma Words(b: seq<byte>, i: nat)
    requires |b| >= 100 && i < 25
    ensures RamWord(b, i) <==> IsRam(Field(b, i)) && Aligned(Field(b, i))
    ensures FileWord(b, i) <==> IsFlash(Field(b, i)) && Aligned(Field(b, i))
    ensures RamWord(b, i) ==> Off(Field(b, i)) == Ram(b, i)
    ensures FileWord(b, i) ==> Off(Field(b, i)) == File(b, i)
  {
    hide Word, IsRam, IsFlash, InRam, InFile, Aligned, Off;
    Window(Field(b, i));
    Alignment(Field(b, i));
  }

  lemma HeaderWords(b: seq<byte>)
    requires |b| >= 100
    ensures var h := HeaderOf(b);
            && h.dataStart == Field(b, 2) && h.dataEnd == Field(b, 3) && h.dataData == Field(b, 4)
            && h.bssStart == Field(b, 5) && h.bssEnd == Field(b, 6) && h.gotStart == Field(b, 7) && h.gotEnd == Field(b, 8)
            && h.relStart == Field(b, 9) && h.relEnd == Field(b, 10) && h.wStart == Field(b, 11) && h.wEnd == Field(b, 12)
            && h.ctx == Field(b, 24)
            && Entries(h) == [Field(b, 13), Field(b, 15), Field(b, 16), Field(b, 17), Field(b, 18), Field(b, 19)]
  {
    hide Word;
  }

  lemma Windows(b: seq<byte>)
    requires |b| >= 100
    ensures ClassesOk(HeaderOf(b)) && AlignmentOk(HeaderOf(b)) <==> RightWindows(b)
  {
    hide HeaderOf, Field, IsRam, IsFlash, RamWord, FileWord, Aligned, Off;
    HeaderWords(b);
    Words(b, 2); Words(b, 3); Words(b, 5); Words(b, 6); Words(b, 7); Words(b, 8);
    Words(b, 4); Words(b, 9); Words(b, 10); Words(b, 11); Words(b, 12);
  }

  /** The offsets of the sections, once they lie in their windows. */
  predicate Offsets(b: seq<byte>)
    requires |b| >= 100
  {
    var h := HeaderOf(b);
    && Off(h.dataStart) == Ram(b, 2) && Off(h.dataEnd) == Ram(b, 3) && Off(h.dataData) == File(b, 4)
    && Off(h.bssStart) == Ram(b, 5) && Off(h.bssEnd) == Ram(b, 6) && Off(h.gotStart) == Ram(b, 7) && Off(h.gotEnd) == Ram(b, 8)
    && Off(h.relStart) == File(b, 9) && Off(h.relEnd) == File(b, 10) && Off(h.wStart) == File(b, 11) && Off(h.wEnd) == File(b, 12)
    && Ram(b, 6) % 4 == 0 && InRam(h.bssEnd)
  }

  lemma WindowOffsets(b: seq<byte>)
    requires |b| >= 100 && RightWindows(b)
    ensures Offsets(b)
  {
    hide HeaderOf, Field, IsRam, IsFlash, Aligned, Off;
    HeaderWords(b);
    Words(b, 2); Words(b, 3); Words(b, 5); Words(b, 6); Words(b, 7); Words(b, 8);
    Words(b, 4); Words(b, 9); Words(b, 10); Words(b, 11); Words(b, 12);
  }

  /** Rounding the end of an aligned bss up does nothing. */
  lemma Sections(b: seq<byte>, lim: Limits)
    requires |b| >= 100 && Offsets(b)
    ensures SectionsOk(HeaderOf(b), |b|, lim) <==> RightSections(b, lim.ram)
  {
    hide HeaderOf, Field, Off;
    RoundUp(Ram(b, 6));
  }

  lemma RoundUp(x: int)
    requires x % 4 == 0
    ensures (x + 3) / 4 * 4 == x
  {
  }

  lemma OneEntry(b: seq<byte>, i: nat)
    requires |b| >= 100 && i < 25 && Offsets(b)
    ensures EntryOk(Field(b, i), Off(HeaderOf(b).dataData)) <==> RightEntry(b, i)
  {
    hide HeaderOf, Field, Off, IsFlash, InFile;
    Window(Field(b, i));
    Alignment(Field(b, i));
  }

  lemma SixEntries(b: seq<byte>)
    requires |b| >= 100 && Offsets(b)
    ensures (forall i :: 0 <= i < 6 ==> EntryOk(Entries(HeaderOf(b))[i], Off(HeaderOf(b).dataData))) <==> RightEntries(b)
  {
    hide HeaderOf, Field, Off, EntryOk, RightEntry, Offsets;
    HeaderWords(b);
    OneEntry(b, 13); OneEntry(b, 15); OneEntry(b, 16); OneEntry(b, 17); OneEntry(b, 18); OneEntry(b, 19);
    var e := Entries(HeaderOf(b));
    assert forall i :: 0 <= i < 6 ==> e[i] in [e[0], e[1], e[2], e[3], e[4], e[5]];
    assert e[0] == Field(b, 13) && e[1] == Field(b, 15) && e[2] == Field(b, 16);
    assert e[3] == Field(b, 17) && e[4] == Field(b, 18) && e[5] == Field(b, 19);
  }

  lemma Context(b: seq<byte>, lim: Limits)
    requires |b| >= 100 && Offsets(b)
    ensures ContextOk(HeaderOf(b), |b|, lim) <==> RightContext(b, lim.context)
  {
    hide HeaderOf, Field, Off, IsRam, InRam;
    HeaderWords(b);
    Window(Field(b, 24));
    Alignment(Field(b, 24));
  }

  lemma OnePointer(b: seq<byte>, v: u32)
    requires |b| >= 100 && Offsets(b)
    ensures PointerOk(v, HeaderOf(b), |b|) <==> GoodPointer(b, v)
  {
    hide HeaderOf, Field, Off, IsRam, IsFlash;
    HeaderWords(b);
    Window(v);
  }

  lemma Got(b: seq<byte>)
    requires |b| >= 100 && Offsets(b) && Ram(b, 2) <= Ram(b, 7) <= Ram(b, 8)
    ensures File(b, 4) >= 0 && (GotOk(b, HeaderOf(b)) <==> RightGot(b))
  {
    hide HeaderOf, Field, Off, PointerOk, GoodPointer, Entry, InRam;
    forall v: u32 ensures PointerOk(v, HeaderOf(b), |b|) <==> GoodPointer(b, v) { OnePointer(b, v); }
  }

  lemma OneTarget(b: seq<byte>, add: u32)
    requires |b| >= 100 && Offsets(b)
    ensures TargetOk(add, HeaderOf(b)) <==> InRam(add) && add + 4 <= Field(b, 6)
  {
    hide HeaderOf, Field, Off, IsRam, IsFlash;
    HeaderWords(b);
    Window(add);
  }

  lemma Relocations(b: seq<byte>)
    requires |b| >= 100 && Offsets(b) && 0 <= File(b, 9) && File(b, 10) <= |b|
    ensures Off(HeaderOf(b).relEnd) <= |b| && (RelOk(b, HeaderOf(b)) <==> RightRelocations(b))
  {
    hide HeaderOf, Field, Off, TargetOk, Entry, InRam;
    forall add: u32 ensures TargetOk(add, HeaderOf(b)) <==> InRam(add) && add + 4 <= Field(b, 6) { OneTarget(b, add); }
  }

  /** The verifier accepts exactly the loadable files. */
  lemma AcceptsLoadable(b: seq<byte>, lim: Limits)
    ensures Accepts(b, lim) <==> Loadable(b, lim.ram, lim.context)
  {
    hide HeaderOf, Field, Off, VariantOk, ClassesOk, AlignmentOk, SectionsOk, EntryOk, ContextOk, GotOk, RelOk;
    hide RightTarget, RightWindows, RightEntries, RightContext, RightGot, RightRelocations;
    if |b| >= 100 {
      Variant(b);
      Windows(b);
      if RightWindows(b) {
        WindowOffsets(b);
        Sections(b, lim);
        SixEntries(b);
        Context(b, lim);
        if RightSections(b, lim.ram) {
          OffsetsNonNegative(b);
          Got(b);
          Relocations(b);
        }
      }
    }
  }

  lemma OffsetsNonNegative(b: seq<byte>)
    requires |b| >= 100 && Offsets(b)
    ensures Ram(b, 2) >= 0 && File(b, 4) >= 0 && File(b, 9) >= 0
  {
    hide HeaderOf, Field;
  }
}
