/** The two-slot model swap of nn_stedgeai_reloc.c: a load is staged in the inactive slot
    and published only when the network has been built from it. Every outcome of the loader
    library is allowed. */
module RelocSwap {
  import opened Machine
  import Reloc

  const SLOT_CAP := 448 * 1024
  const RAM_CAP := 48 * 1024

  /** What the loader library does with a verified slot: a result code, the handle it made
      (even when it fails later), what it leaves in that slot's RAM image, and the tensors
      it reports. */
  datatype Build = Build(rc: int, made: Option<nat>, ram: seq<byte>, tensors: nat)

  /** `reload`'s data argument: none, one of the slots, or any other address. */
  datatype Source = Nothing | Slot(k: nat) | Elsewhere

  /** What describes the live model. */
  datatype Model = Model(handle: Option<nat>, slot: int, tensors: nat, name: string)

  predicate Slots(m: seq<seq<byte>>, n: nat) { |m| == 2 && |m[0]| == n && |m[1]| == n }

  /** @p alive: the handles the library has created and not destroyed. */
  datatype Backend = Backend(m: Model, slots: seq<seq<byte>>, rams: seq<seq<byte>>, alive: set<nat>)

  predicate Inv(b: Backend) {
    && Slots(b.slots, SLOT_CAP) && Slots(b.rams, RAM_CAP)
    && -1 <= b.m.slot <= 1 && (b.m.handle.Some? <==> b.m.slot >= 0)
    && b.alive == (if b.m.handle.Some? then {b.m.handle.value} else {})
  }

  /** `load_region`: the slot a file may be read into. */
  function Region(b: Backend): (k: nat)
    ensures k < 2 && k != b.m.slot
  {
    if b.m.slot == 0 then 1 else 0
  }

  /** A file read into the region, whole or in part. */
  function Stage(b: Backend, data: seq<byte>): Backend
    requires Inv(b) && |data| <= SLOT_CAP
  {
    b.(slots := b.slots[Region(b) := data + b.slots[Region(b)][|data|..]])
  }

  function Cleared(s: seq<byte>, len: nat): (r: seq<byte>)
    requires len <= |s|
    ensures |r| == |s|
  {
    s[..len] + Zeros(|s| - len)
  }

  const NONE := Model(None, -1, 0, "(none)")

  /** "sd:" and the name, cut to fit forty bytes with its NUL. */
  function ShownName(name: string): (s: string)
    ensures |s| < 40
  {
    "sd:" + (if |name| <= 36 then name else name[..36])
  }

  /** Destroy a handle, if there is one. */
  function Destroy(alive: set<nat>, h: Option<nat>): set<nat> { if h.None? then alive else alive - {h.value} }

  predicate Ready(b: Backend, src: Source, len: nat) {
    src.Slot? && src.k < 2 && src.k != b.m.slot && 0 < len <= SLOT_CAP
  }

  /** `reload`: the new state and the result. */
  ghost function Reload(b: Backend, src: Source, len: nat, name: string, lim: Reloc.Limits, o: Build): (Backend, int)
    requires Inv(b) && |o.ram| == RAM_CAP
  {
    if src.Nothing? then (b.(m := NONE, alive := Destroy(b.alive, b.m.handle)), 0)
    else if !Ready(b, src, len) then (b, -1)
    else
      var k := src.k;
      var b1 := b.(slots := b.slots[k := Cleared(b.slots[k], len)]);
      if !Reloc.Accepts(b1.slots[k][..len], lim) then (b1, -1)
      else
        var made := if o.made.None? then b1.alive else b1.alive + {o.made.value};
        var b2 := b1.(rams := b1.rams[k := o.ram], alive := made);
        if o.rc != 0 || o.made.None? then (b2.(alive := Destroy(made, o.made)), if o.rc != 0 then o.rc else -4)
        else (b2.(m := Model(o.made, k, o.tensors, ShownName(name)), alive := Destroy(made, b.m.handle)), 0)
  }

  /** The library makes a handle that is not in use. */
  predicate Sane(b: Backend, o: Build) { |o.ram| == RAM_CAP && (o.made.Some? ==> o.made.value !in b.alive) }

  // ---- the guarantees -------------------------------------------------------------------

  /** The live model as it runs: handle, tensors, name, program bytes and RW image. */
  function Live(b: Backend): (Model, seq<byte>, seq<byte>)
    requires Inv(b)
  {
    (b.m, if b.m.slot < 0 then [] else b.slots[b.m.slot], if b.m.slot < 0 then [] else b.rams[b.m.slot])
  }

  /** Staging never touches the live model. */
  lemma StageKeepsLive(b: Backend, data: seq<byte>)
    requires Inv(b) && |data| <= SLOT_CAP
    ensures Inv(Stage(b, data)) && Live(Stage(b, data)) == Live(b)
    ensures Stage(b, data).slots[Region(b)][..|data|] == data
  {
  }

  /** A reload that fails, at whatever point, leaves the live model, its program bytes and
      its RW image as they were and leaks no handle; one that succeeds makes exactly the
      staged file live, retires the old handle and leaves the old slot as it was. */
  lemma ReloadIsTransactional(b: Backend, src: Source, len: nat, name: string, lim: Reloc.Limits, o: Build)
    requires Inv(b) && Sane(b, o)
    ensures var (b', rc) := Reload(b, src, len, name, lim, o);
            && Inv(b')
            && (rc != 0 ==> Live(b') == Live(b) && b'.alive == b.alive)
            && (rc == 0 && !src.Nothing? ==>
                  && Ready(b, src, len) && Reloc.Accepts(b.slots[src.k][..len], lim)
                  && b'.m == Model(o.made, src.k, o.tensors, ShownName(name)) && o.made.Some?
                  && b'.slots[src.k] == Cleared(b.slots[src.k], len) && b'.rams[src.k] == o.ram
                  && (b.m.slot >= 0 ==> b'.slots[b.m.slot] == b.slots[b.m.slot] && b'.rams[b.m.slot] == b.rams[b.m.slot]))
            && (src.Nothing? ==> rc == 0 && b'.m == NONE && b'.slots == b.slots && b'.rams == b.rams)
  {
    hide Reloc.Accepts;
    if Ready(b, src, len) { assert Cleared(b.slots[src.k], len)[..len] == b.slots[src.k][..len]; }
  }

  /** When a reload succeeds: for no data at all, or for the inactive slot with a file that fits it
      and passes the verifier, if the library builds a network from it. What it answers otherwise:
      -1 before the library is asked, the library's error, or -4 for a network without a handle. */
  lemma ReloadAnswers(b: Backend, src: Source, len: nat, name: string, lim: Reloc.Limits, o: Build)
    requires Inv(b) && Sane(b, o)
    ensures var rc := Reload(b, src, len, name, lim, o).1;
            var good := src.Slot? && src.k < 2 && src.k != b.m.slot && 0 < len <= SLOT_CAP && Reloc.Accepts(b.slots[src.k][..len], lim);
            && (rc == 0 <==> src.Nothing? || (good && o.rc == 0 && o.made.Some?))
            && (!src.Nothing? && !good ==> rc == -1)
            && (good && o.rc != 0 ==> rc == o.rc)
            && (good && o.rc == 0 && o.made.None? ==> rc == -4)
  {
    hide Reloc.Accepts;
    if Ready(b, src, len) { assert Cleared(b.slots[src.k], len)[..len] == b.slots[src.k][..len]; }
  }

  /** Loading a model: a good file read into the region that `load_region` offers, and a reload of
      that region that the library can build, make that file live - its bytes with zeros behind
      them, the library's RW image, its handle and tensors, and "sd:" and the name, cut to 36
      characters - and the handle of the model before it is destroyed. */
  lemma LoadGoesLive(b: Backend, data: seq<byte>, name: string, lim: Reloc.Limits, o: Build)
    requires Inv(b) && 0 < |data| <= SLOT_CAP && Reloc.Accepts(data, lim)
    requires Sane(b, o) && o.rc == 0 && o.made.Some?
    ensures var (b', rc) := Reload(Stage(b, data), Slot(Region(b)), |data|, name, lim, o);
            var (m, program, ram) := Live(b');
            && rc == 0 && Inv(b') && m.handle == o.made && m.tensors == o.tensors
            && m.name == "sd:" + (if |name| <= 36 then name else name[..36])
            && program == data + Zeros(SLOT_CAP - |data|) && ram == o.ram
            && b'.alive == {o.made.value}
  {
    hide Reloc.Accepts, Reload;
    var s, k := Stage(b, data), Region(b);
    StageKeepsLive(b, data);
    assert Sane(s, o);
    ReloadAnswers(s, Slot(k), |data|, name, lim, o);
    ReloadIsTransactional(s, Slot(k), |data|, name, lim, o);
    assert s.slots[k][..|data|] == data;
  }

  /** A close leaves no model and no handle, and both slots as they are. */
  lemma CloseLeavesNothing(b: Backend)
    requires Inv(b)
    ensures var b' := Close(b); Inv(b') && b'.m.handle.None? && b'.m.slot == -1 && b'.alive == {} && b'.slots == b.slots && b'.rams == b.rams
  {
  }

  // ---- runs -------------------------------------------------------------------------------

  datatype Op =
    | Read(data: seq<byte>)
    | Reloads(src: Source, len: nat, name: string, o: Build)
    | Closes

  predicate Enabled(b: Backend, op: Op) {
    match op
    case Read(data) => |data| <= SLOT_CAP
    case Reloads(_, _, _, o) => Sane(b, o)
    case Closes => true
  }

  /** `close`: the handle is destroyed, the slots stay. */
  function Close(b: Backend): Backend {
    b.(m := b.m.(handle := None, slot := -1, tensors := 0), alive := Destroy(b.alive, b.m.handle))
  }

  ghost function Next(b: Backend, lim: Reloc.Limits, op: Op): Backend
    requires Inv(b) && Enabled(b, op)
  {
    match op
    case Read(data) => Stage(b, data)
    case Reloads(src, len, name, o) => Reload(b, src, len, name, lim, o).0
    case Closes => Close(b)
  }

  ghost predicate Succeeds(b: Backend, lim: Reloc.Limits, op: Op)
    requires Inv(b) && Enabled(b, op)
  {
    op.Reloads? && Reload(b, op.src, op.len, op.name, lim, op.o).1 == 0
  }

  /** One step: the live model changes only by a successful reload or a close. */
  lemma StepKeeps(b: Backend, lim: Reloc.Limits, op: Op)
    requires Inv(b) && Enabled(b, op)
    ensures Inv(Next(b, lim, op))
    ensures !op.Closes? && !Succeeds(b, lim, op) ==> Live(Next(b, lim, op)) == Live(b)
  {
    hide Reload, Live;
    match op
    case Read(data) => StageKeepsLive(b, data);
    case Reloads(src, len, name, o) => ReloadIsTransactional(b, src, len, name, lim, o);
    case Closes =>
  }

  /** A run without a successful reload or a close: each step of it is a staging or a failed
      reload. */
  ghost predicate Failing(b: Backend, lim: Reloc.Limits, ops: seq<Op>)
    requires Inv(b)
    decreases |ops|
  {
    ops == [] || (Enabled(b, ops[0]) && !ops[0].Closes? && !Succeeds(b, lim, ops[0])
                  && (StepKeeps(b, lim, ops[0]); Failing(Next(b, lim, ops[0]), lim, ops[1..])))
  }

  ghost function After(b: Backend, lim: Reloc.Limits, ops: seq<Op>): (b': Backend)
    requires Inv(b) && Failing(b, lim, ops)
    ensures Inv(b')
    decreases |ops|
  {
    if ops == [] then b else StepKeeps(b, lim, ops[0]); After(Next(b, lim, ops[0]), lim, ops[1..])
  }

  /** However many files are staged and however many reloads fail, the live model, its
      program bytes and its RW image stay what they were. */
  lemma {:induction false} LiveSurvives(b: Backend, lim: Reloc.Limits, ops: seq<Op>)
    requires Inv(b) && Failing(b, lim, ops)
    ensures Live(After(b, lim, ops)) == Live(b)
    decreases |ops|
  {
    hide Next, Live, Enabled, Succeeds;
    if ops == [] {
    } else {
      StepKeeps(b, lim, ops[0]);
      LiveSurvives(Next(b, lim, ops[0]), lim, ops[1..]);
    }
  }

  // ---- the backend as the code updates it ----------------------------------------------------

  lemma FourMore(a: nat, b: nat)
    requires a % 4 == 0 && b % 4 == 0
    ensures (a + b) % 4 == 0
  {
  }

  class RelocBackend {
    /** The address of the first slot; the second one follows it. */
    const base: u32
    const slot0: array<byte>
    const slot1: array<byte>
    const ram0: array<byte>
    const ram1: array<byte>
    var model: Model
    ghost var alive: set<nat>

    ghost predicate Valid()
      reads this, slot0, slot1, ram0, ram1
    {
      && slot0.Length == slot1.Length == SLOT_CAP && ram0.Length == ram1.Length == RAM_CAP
      && slot0 != slot1 && ram0 != ram1 && slot0 != ram0 && slot0 != ram1 && slot1 != ram0 && slot1 != ram1
      && base % 4 == 0 && base + 2 * SLOT_CAP <= TWO32
      && Inv(State())
    }

    ghost function State(): Backend
      reads this, slot0, slot1, ram0, ram1
    {
      Backend(model, [slot0[..], slot1[..]], [ram0[..], ram1[..]], alive)
    }

    function SlotArray(k: nat): array<byte> { if k == 0 then slot0 else slot1 }

    function SlotAddr(k: nat): (a: u32)
      requires base % 4 == 0 && base + 2 * SLOT_CAP <= TWO32
      ensures a % 4 == 0
    {
      FourMore(base, SLOT_CAP);
      if k == 0 then base else base + SLOT_CAP
    }

    function RamArray(k: nat): array<byte> { if k == 0 then ram0 else ram1 }

    /** `open`: start empty. */
    constructor (s0: array<byte>, s1: array<byte>, r0: array<byte>, r1: array<byte>, at: u32)
      requires s0.Length == s1.Length == SLOT_CAP && r0.Length == r1.Length == RAM_CAP
      requires at % 4 == 0 && at + 2 * SLOT_CAP <= TWO32
      requires s0 != s1 && r0 != r1 && s0 != r0 && s0 != r1 && s1 != r0 && s1 != r1
      ensures Valid() && model == NONE && slot0 == s0 && slot1 == s1 && ram0 == r0 && ram1 == r1
    {
      slot0, slot1, ram0, ram1, base := s0, s1, r0, r1, at;
      model, alive := NONE, {};
    }

    method LoadRegion() returns (k: nat)
      requires Valid()
      ensures k == Region(State()) && k < 2 && k != model.slot
    {
      k := if model.slot == 0 then 1 else 0;
    }

    method CloseModel()
      requires Valid()
      modifies this
      ensures Valid() && State() == Close(old(State()))
      ensures model.handle.None? && model.slot == -1 && alive == {}
    {
      alive := Destroy(alive, model.handle);
      model := model.(handle := None, slot := -1, tensors := 0);
    }

    /** The loader library at work on slot @p k. */
    method BuildFrom(k: nat, o: Build)
      requires Valid() && k < 2 && |o.ram| == RAM_CAP
      modifies RamArray(k), `alive
      ensures var b := old(State());
              State() == b.(rams := b.rams[k := o.ram], alive := if o.made.None? then b.alive else b.alive + {o.made.value})
    {
      var r := RamArray(k);
      ghost var b := State();
      forall i | 0 <= i < RAM_CAP { r[i] := o.ram[i]; }
      assert r[..] == o.ram;
      if k == 0 {
        assert ram1[..] == b.rams[1] && slot0[..] == b.slots[0] && slot1[..] == b.slots[1];
      } else {
        assert ram0[..] == b.rams[0] && slot0[..] == b.slots[0] && slot1[..] == b.slots[1];
      }
      alive := if o.made.None? then alive else alive + {o.made.value};
    }

    /** Zero the slot tail beyond the file. */
    method ClearTail(k: nat, len: nat)
      requires Valid() && k < 2 && len <= SLOT_CAP
      modifies SlotArray(k)
      ensures SlotArray(k)[..] == Cleared(old(SlotArray(k)[..]), len)
    {
      var s := SlotArray(k);
      forall i | len <= i < SLOT_CAP { s[i] := 0; }
    }

    /** Zero the tail beyond the file and verify the file. */
    method VerifyStaged(k: nat, len: nat, lim: Reloc.Limits) returns (ok: bool)
      requires Valid() && k < 2 && len <= SLOT_CAP
      modifies SlotArray(k)
      ensures var b := old(State());
              && State() == b.(slots := b.slots[k := Cleared(b.slots[k], len)])
              && ok == Reloc.Accepts(State().slots[k][..len], lim)
    {
      hide Reloc.Accepts, Cleared;
      ghost var b := State();
      ClearTail(k, len);
      assert State() == b.(slots := b.slots[k := Cleared(b.slots[k], len)]);
      var s := SlotArray(k);
      ok := Reloc.Verify(s, SlotAddr(k), len, lim);
      assert s[..len] == s[..][..len];
    }

    method ReloadModel(src: Source, len: nat, name: string, lim: Reloc.Limits, o: Build) returns (rc: int)
      requires Valid() && Sane(State(), o)
      modifies this, slot0, slot1, ram0, ram1
      ensures Valid() && (State(), rc) == Reload(old(State()), src, len, name, lim, o)
      ensures var good := src.Slot? && src.k < 2 && src.k != old(model.slot) && 0 < len <= SLOT_CAP
                          && Reloc.Accepts(old(State()).slots[src.k][..len], lim);
              rc == 0 <==> src.Nothing? || (good && o.rc == 0 && o.made.Some?)
      ensures rc != 0 ==> model == old(model) && alive == old(alive)
      ensures rc == 0 && src.Slot? ==> model.handle == o.made && model.slot == src.k && model.tensors == o.tensors
      ensures src.Nothing? ==> model == NONE
    {
      hide Reloc.Accepts, Cleared;
      ghost var b := State();
      ReloadAnswers(b, src, len, name, lim, o);
      ReloadIsTransactional(b, src, len, name, lim, o);
      match src {
        case Nothing =>
          alive := Destroy(alive, model.handle);
          model := NONE;
          return 0;
        case Elsewhere => return -1;
        case Slot(k) =>
          if k >= 2 || k == model.slot || len == 0 || len > SLOT_CAP { return -1; }
          var ok := VerifyStaged(k, len, lim);
          if !ok { return -1; }
          BuildFrom(k, o);
          if o.rc != 0 || o.made.None? {
            alive := Destroy(alive, o.made);
            return if o.rc != 0 then o.rc else -4;
          }
          ghost var retired := model.handle;
          model := Model(o.made, k, o.tensors, ShownName(name));
          alive := Destroy(alive, retired);
          return 0;
      }
    }
  }
}
