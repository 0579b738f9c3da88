/** The camera base capture: who is registered, who is linked into the frame pipeline, and
    when the base may run (port/camera/camera.c).  Every public entry and every producer
    transition is one section under `cam_lock`. */
module CameraBase {
  import opened Machine

  type SinkId = nat

  const MAX_SUBS := 3
  const RECOVER_WINDOW: u32 := 8000
  const RECOVER_GIVEUP := 6

  datatype Format = Rgb565 | Yuv422 | Y8 | JpegFormat

  /** The pipeline's list: the counting sink and external subscribers. */
  datatype Link = Stat | External(s: SinkId)

  datatype Sub = Sub(sink: Option<SinkId>, fmt: Format, enabled: bool, attached: bool, oneshot: bool)

  datatype Base = Base(active: bool, stopReq: bool, err: bool, pending: bool, rapid: nat, last: u32,
                       fmt: Format, subs: seq<Sub>, linked: set<Link>)

  /** What the hardware and the sinks answer to a start: @p ready, everything up to building
      the pipeline succeeds; @p accepts, whether each subscriber's attach does; @p armed,
      the DMA starts. */
  datatype Answers = Answers(ready: bool, accepts: seq<bool>, armed: bool)

  // ---- the registry ----------------------------------------------------------

  /** The first table slot holding @p s (or the first empty one, for None). */
  function Find(subs: seq<Sub>, s: Option<SinkId>, from: nat): (i: nat)
    requires from <= |subs|
    ensures from <= i <= |subs|
    ensures i < |subs| ==> subs[i].sink == s
    ensures forall j :: from <= j < i ==> subs[j].sink != s
    decreases |subs| - from
  {
    if from == |subs| || subs[from].sink == s then from else Find(subs, s, from + 1)
  }

  /** Claim or find the slot for @p s; |subs| when the table is full. */
  function Register(subs: seq<Sub>, s: SinkId, fmt: Format, oneshot: bool): (seq<Sub>, nat) {
    var i := Find(subs, Some(s), 0);
    var k := if i < |subs| then i else Find(subs, None, 0);
    if k == |subs| then (subs, k)
    else (subs[k := subs[k].(sink := Some(s), fmt := fmt, enabled := true, oneshot := oneshot)], k)
  }

  function Cleared(sub: Sub): Sub { sub.(sink := None, enabled := false, oneshot := false) }

  function Released(sub: Sub): Sub { if sub.sink.Some? && sub.oneshot then Cleared(sub) else sub }

  function ReleaseOneshot(subs: seq<Sub>): (r: seq<Sub>)
    ensures |r| == |subs| && forall i :: 0 <= i < |subs| ==> r[i] == Released(subs[i])
  {
    if subs == [] then [] else [Released(subs[0])] + ReleaseOneshot(subs[1..])
  }

  function DetachAll(subs: seq<Sub>): (r: seq<Sub>)
    ensures |r| == |subs| && forall i :: 0 <= i < |subs| ==> r[i] == subs[i].(attached := false)
  {
    if subs == [] then [] else [subs[0].(attached := false)] + DetachAll(subs[1..])
  }

  function AttachedLinks(subs: seq<Sub>): set<Link> {
    set i | 0 <= i < |subs| && subs[i].attached && subs[i].sink.Some? :: External(subs[i].sink.value)
  }

  /** Does a start attach this subscriber? */
  predicate Wants(sub: Sub, fmt: Format) {
    sub.sink.Some? && sub.enabled && !sub.attached && sub.fmt == fmt
  }

  predicate Accepts(a: Answers, i: nat) { i < |a.accepts| && a.accepts[i] }

  /** Attach every willing subscriber; all or nothing. */
  function AttachAll(subs: seq<Sub>, fmt: Format, a: Answers, from: nat): (seq<Sub>, bool)
    requires from <= |subs|
    decreases |subs| - from
  {
    if from == |subs| then (subs, true)
    else if !Wants(subs[from], fmt) then AttachAll(subs, fmt, a, from + 1)
    else if !Accepts(a, from) then (DetachAll(subs), false)
    else AttachAll(subs[from := subs[from].(attached := true)], fmt, a, from + 1)
  }

  // ---- the sections under cam_lock --------------------------------------------

  function Release(b: Base): Base { b.(subs := ReleaseOneshot(b.subs)) }

  /** `stream_start_locked`: build the pipeline afresh, attach, arm. */
  function StartLocked(b: Base, a: Answers): (Base, bool) {
    if b.active || !a.ready then (b, false)
    else
      var (subs, ok) := AttachAll(b.subs, b.fmt, a, 0);
      if !ok then (b.(subs := subs, linked := {}), false)
      else
        var b1 := b.(subs := subs, linked := {Stat} + AttachedLinks(subs), err := false, stopReq := false);
        if !a.armed then (b1.(subs := DetachAll(subs), linked := {}), false)
        else (b1.(active := true), true)
  }

  datatype Event =
    | Start(a: Answers)
    | Stop
    | PowerOff
    | Subscribe(s: SinkId, fmt: Format, accepted: bool)
    | SubscribeOneshot(s: SinkId, fmt: Format, accepted: bool)
    | Unsubscribe(s: SinkId)
    | SetMode(fmt: Format)
    | Overrun
    | Teardown
    | Recover(now: u32, a: Answers)

  function StartStep(b: Base, a: Answers): Base {
    var b1 := b.(pending := false, rapid := 0);
    StartLocked(if b.active then b1 else Release(b1), a).0
  }

  function StopStep(b: Base): Base {
    var b1 := b.(pending := false);
    if b.active then b1.(stopReq := true) else Release(b1)
  }

  function PowerOffStep(b: Base): Base {
    if b.active then b else Release(b.(pending := false))
  }

  function SubscribeStep(b: Base, s: SinkId, fmt: Format, accepted: bool): Base {
    var (subs, k) := Register(b.subs, s, fmt, false);
    if k >= |subs| then b
    else if b.active && !subs[k].attached && subs[k].fmt == b.fmt then
      if accepted then b.(subs := subs[k := subs[k].(attached := true)], linked := b.linked + {External(s)})
      else b.(subs := subs[k := Cleared(subs[k])])
    else b.(subs := subs)
  }

  function OneshotStep(b: Base, s: SinkId, fmt: Format, accepted: bool): Base {
    if !b.active || b.fmt != fmt then b
    else
      var (subs, k) := Register(b.subs, s, fmt, true);
      if k >= |subs| then b
      else if subs[k].attached then b.(subs := subs)
      else if accepted then b.(subs := subs[k := subs[k].(attached := true)], linked := b.linked + {External(s)})
      else b.(subs := subs[k := Cleared(subs[k])])
  }

  function UnsubscribeStep(b: Base, s: SinkId): Base {
    var k := Find(b.subs, Some(s), 0);
    if k == |b.subs| then b
    else
      var b1 := if b.subs[k].attached
                then b.(subs := b.subs[k := b.subs[k].(attached := false)], linked := b.linked - {External(s)}) else b;
      b1.(subs := b1.subs[k := Cleared(b1.subs[k])])
  }

  function TeardownStep(b: Base): Base {
    if !b.active then b
    else
      var b1 := b.(pending := b.err && !b.stopReq, active := false, subs := DetachAll(b.subs),
                   linked := b.linked - {Stat} - AttachedLinks(b.subs));
      if b1.pending then b1 else Release(b1)
  }

  function RecoverStep(b: Base, now: u32, a: Answers): Base {
    if !b.pending || b.active then
      var b1 := b.(pending := false);
      if b.active then b1 else Release(b1)
    else
      var b1 := b.(pending := false, last := now,
                   rapid := if Sub32(now, b.last) < RECOVER_WINDOW then b.rapid + 1 else 0);
      if b1.rapid >= RECOVER_GIVEUP then Release(b1)
      else
        var (b2, ok) := StartLocked(b1, a);
        if ok then b2 else Release(b2)
  }

  /** One event: an entry point, an interrupt, or a step of the producer thread. */
  function Next(b: Base, e: Event): Base {
    match e
    case Start(a) => StartStep(b, a)
    case Stop => StopStep(b)
    case PowerOff => PowerOffStep(b)
    case Subscribe(s, fmt, accepted) => SubscribeStep(b, s, fmt, accepted)
    case SubscribeOneshot(s, fmt, accepted) => OneshotStep(b, s, fmt, accepted)
    case Unsubscribe(s) => UnsubscribeStep(b, s)
    case SetMode(fmt) => if b.active then b else b.(fmt := fmt)
    case Overrun => if b.active then b.(err := true) else b
    case Teardown => TeardownStep(b)
    case Recover(now, a) => RecoverStep(b, now, a)
  }

  function Run(b: Base, es: seq<Event>): Base
    decreases |es|
  {
    if es == [] then b else Run(Next(b, es[0]), es[1..])
  }

  // ---- the invariant -----------------------------------------------------------

  /** Attached means registered and linked; linked means attached (or the counting sink of
      an active base); an inactive base has nothing linked; and once no recovery is pending
      an inactive base has no one-shot subscriber left. */
  ghost predicate Inv(b: Base) {
    && (forall i :: 0 <= i < |b.subs| && b.subs[i].attached ==> b.subs[i].sink.Some?)
    && (forall i :: 0 <= i < |b.subs| && b.subs[i].sink.None? ==> !b.subs[i].oneshot && !b.subs[i].enabled)
    && (forall i, j :: 0 <= i < j < |b.subs| && b.subs[i].sink.Some? ==> b.subs[i].sink != b.subs[j].sink)
    && b.linked == (if b.active then {Stat} else {}) + AttachedLinks(b.subs)
    && (!b.active ==> forall i :: 0 <= i < |b.subs| ==> !b.subs[i].attached)
    && (!b.active && !b.pending ==> forall i :: 0 <= i < |b.subs| ==> !b.subs[i].oneshot)
  }

  /** Attaching changes only the `attached` marks: on success exactly the willing ones gain
      theirs, on failure nobody keeps one. */
  lemma {:induction false} AttachAllMarks(subs: seq<Sub>, fmt: Format, a: Answers, from: nat)
    requires from <= |subs|
    ensures var (r, ok) := AttachAll(subs, fmt, a, from);
            && |r| == |subs|
            && (forall i :: 0 <= i < |subs| ==> r[i] == subs[i].(attached := r[i].attached))
            && (ok ==> forall i :: 0 <= i < |subs| ==>
                  r[i].attached == (subs[i].attached || (i >= from && Wants(subs[i], fmt))))
            && (!ok ==> forall i :: 0 <= i < |subs| ==> !r[i].attached)
    decreases |subs| - from
  {
    if from == |subs| {
    } else {
      if !Wants(subs[from], fmt) {
        AttachAllMarks(subs, fmt, a, from + 1);
      } else if Accepts(a, from) {
        AttachAllMarks(subs[from := subs[from].(attached := true)], fmt, a, from + 1);
      }
    }
  }

  lemma NoneAttached(subs: seq<Sub>)
    requires forall i :: 0 <= i < |subs| ==> !subs[i].attached
    ensures AttachedLinks(subs) == {}
  {
  }

  /** Changing one slot without touching its mark or a marked sink. */
  lemma LinksSame(a: seq<Sub>, b: seq<Sub>)
    requires |a| == |b|
    requires forall i :: 0 <= i < |a| ==> a[i].attached == b[i].attached && (a[i].attached ==> a[i].sink == b[i].sink)
    ensures AttachedLinks(a) == AttachedLinks(b)
  {
    forall l | l in AttachedLinks(a) ensures l in AttachedLinks(b) {
      var i :| 0 <= i < |a| && a[i].attached && a[i].sink.Some? && External(a[i].sink.value) == l;
      assert b[i].attached;
    }
    forall l | l in AttachedLinks(b) ensures l in AttachedLinks(a) {
      var i :| 0 <= i < |b| && b[i].attached && b[i].sink.Some? && External(b[i].sink.value) == l;
      assert a[i].attached;
    }
  }

  lemma LinksGain(subs: seq<Sub>, k: nat, sub: Sub)
    requires k < |subs| && !subs[k].attached && sub.attached && sub.sink.Some?
    ensures AttachedLinks(subs[k := sub]) == AttachedLinks(subs) + {External(sub.sink.value)}
  {
    var r := subs[k := sub];
    forall l | l in AttachedLinks(subs) ensures l in AttachedLinks(r) {
      var i :| 0 <= i < |subs| && subs[i].attached && subs[i].sink.Some? && External(subs[i].sink.value) == l;
      assert r[i].attached;
    }
    assert r[k].attached;
  }

  lemma LinksLose(subs: seq<Sub>, k: nat, sub: Sub)
    requires k < |subs| && subs[k].attached && subs[k].sink.Some? && !sub.attached
    requires forall i, j :: 0 <= i < j < |subs| && subs[i].sink.Some? ==> subs[i].sink != subs[j].sink
    ensures AttachedLinks(subs[k := sub]) == AttachedLinks(subs) - {External(subs[k].sink.value)}
  {
    var r := subs[k := sub];
    forall l | l in AttachedLinks(subs) && l != External(subs[k].sink.value) ensures l in AttachedLinks(r) {
      var i :| 0 <= i < |subs| && subs[i].attached && subs[i].sink.Some? && External(subs[i].sink.value) == l;
      assert r[i].attached;
    }
    forall l | l in AttachedLinks(r) ensures l in AttachedLinks(subs) && l != External(subs[k].sink.value) {
      var i :| 0 <= i < |r| && r[i].attached && r[i].sink.Some? && External(r[i].sink.value) == l;
      assert subs[i].attached && i != k;
    }
  }

  lemma ReleaseKeeps(b: Base)
    requires Inv(b.(pending := true))
    ensures !b.active ==> Inv(Release(b))
  {
    if !b.active {
      NoneAttached(b.subs);
      NoneAttached(ReleaseOneshot(b.subs));
    }
  }

  /** The counters do not matter, and a pending recovery only weakens the invariant. */
  lemma InvWeaker(b: Base, b': Base)
    requires Inv(b) && b' == b.(pending := true, rapid := b'.rapid, last := b'.last)
    ensures Inv(b')
  {
  }

  lemma StartKeeps(b: Base, a: Answers)
    requires Inv(b.(pending := true))
    ensures var (b', ok) := StartLocked(b, a);
            && (ok ==> Inv(b')) && (!ok ==> Inv(b'.(pending := true))) && ok == (b'.active && !b.active)
            && b'.pending == b.pending && b'.rapid == b.rapid && b'.last == b.last
            && (!ok && (forall i :: 0 <= i < |b.subs| ==> !b.subs[i].oneshot) ==>
                  forall i :: 0 <= i < |b'.subs| ==> !b'.subs[i].oneshot)
  {
    hide Inv;
    if b.active || !a.ready {
    } else {
      hide AttachAll, DetachAll, AttachedLinks;
      AttachAllMarks(b.subs, b.fmt, a, 0);
      var (subs, ok) := AttachAll(b.subs, b.fmt, a, 0);
      if !ok {
        UnmarkedInv(b, subs);
      } else if !a.armed {
        UnmarkedInv(b, DetachAll(subs));
      } else {
        IdleUnmarked(b.(pending := true));
        MarkedInv(b, subs);
      }
    }
  }

  lemma IdleUnmarked(b: Base)
    requires Inv(b) && !b.active
    ensures forall i :: 0 <= i < |b.subs| ==> !b.subs[i].attached
  {
  }

  /** A start that fails leaves the registrations with every mark off and nothing linked. */
  lemma UnmarkedInv(b: Base, subs: seq<Sub>)
    requires Inv(b.(pending := true)) && !b.active && |subs| == |b.subs|
    requires forall i :: 0 <= i < |subs| ==> subs[i] == b.subs[i].(attached := false)
    ensures forall x: bool, y: bool :: Inv(b.(pending := true, subs := subs, linked := {}, err := x, stopReq := y))
    ensures (forall i :: 0 <= i < |b.subs| ==> !b.subs[i].oneshot) ==> forall i :: 0 <= i < |subs| ==> !subs[i].oneshot
  {
    NoneAttached(subs);
    forall i | 0 <= i < |subs| ensures subs[i].sink == b.subs[i].sink && subs[i].oneshot == b.subs[i].oneshot {}
  }

  /** A start that succeeds links exactly the marked ones, which are registered. */
  lemma MarkedInv(b: Base, subs: seq<Sub>)
    requires Inv(b.(pending := true)) && !b.active && |subs| == |b.subs|
    requires forall i :: 0 <= i < |subs| ==>
               subs[i] == b.subs[i].(attached := subs[i].attached) && (subs[i].attached ==> b.subs[i].sink.Some?)
    ensures Inv(b.(subs := subs, linked := {Stat} + AttachedLinks(subs), err := false, stopReq := false, active := true))
  {
    hide AttachedLinks;
    forall i | 0 <= i < |subs| ensures subs[i].sink == b.subs[i].sink && subs[i].oneshot == b.subs[i].oneshot {}
  }

  lemma RegisterKeeps(b: Base, s: SinkId, fmt: Format, oneshot: bool)
    requires Inv(b) && (oneshot ==> b.active)
    ensures var (subs, k) := Register(b.subs, s, fmt, oneshot);
            && |subs| == |b.subs| && k <= |subs| && Inv(b.(subs := subs))
            && (k < |subs| ==> subs[k].sink == Some(s) && subs[k].enabled)
  {
    var (subs, k) := Register(b.subs, s, fmt, oneshot);
    LinksSame(b.subs, subs);
  }

  lemma AttachedKeeps(b: Base, k: nat)
    requires Inv(b) && b.active && k < |b.subs| && b.subs[k].sink.Some? && !b.subs[k].attached
    ensures Inv(b.(subs := b.subs[k := b.subs[k].(attached := true)], linked := b.linked + {External(b.subs[k].sink.value)}))
    ensures Inv(b.(subs := b.subs[k := Cleared(b.subs[k])]))
  {
    LinksGain(b.subs, k, b.subs[k].(attached := true));
    LinksSame(b.subs, b.subs[k := Cleared(b.subs[k])]);
  }

  lemma UnsubscribeKeeps(b: Base, s: SinkId)
    requires Inv(b)
    ensures Inv(UnsubscribeStep(b, s))
  {
    var k := Find(b.subs, Some(s), 0);
    if k < |b.subs| {
      var b' := UnsubscribeStep(b, s);
      if b.subs[k].attached {
        LinksLose(b.subs, k, b'.subs[k]);
        assert b'.subs == b.subs[k := b'.subs[k]];
        assert b'.linked == {Stat} + AttachedLinks(b'.subs);
      } else {
        LinksSame(b.subs, b'.subs);
      }
    }
  }

  lemma SubscribeKeeps(b: Base, s: SinkId, fmt: Format, accepted: bool, oneshot: bool)
    requires Inv(b) && (oneshot ==> b.active)
    ensures Inv(if oneshot then OneshotStep(b, s, fmt, accepted) else SubscribeStep(b, s, fmt, accepted))
  {
    hide Inv, Register, Cleared;
    RegisterKeeps(b, s, fmt, oneshot);
    var (subs, k) := Register(b.subs, s, fmt, oneshot);
    if k < |subs| && b.active && !subs[k].attached {
      AttachedKeeps(b.(subs := subs), k);
    }
  }

  lemma StopKeeps(b: Base)
    requires Inv(b)
    ensures Inv(StopStep(b)) && Inv(PowerOffStep(b))
  {
    if !b.active { ReleaseKeeps(b.(pending := false)); }
  }

  /** Every section leaves the registry invariant intact when the lock is released. */
  lemma StepKeeps(b: Base, e: Event)
    requires Inv(b)
    ensures Inv(Next(b, e))
  {
    hide StartStep, StopStep, PowerOffStep, SubscribeStep, OneshotStep, UnsubscribeStep, TeardownStep, RecoverStep;
    match e
    case Start(a) => StartStepKeeps(b, a);
    case Stop => StopKeeps(b);
    case PowerOff => StopKeeps(b);
    case Subscribe(s, fmt, accepted) => SubscribeKeeps(b, s, fmt, accepted, false);
    case SubscribeOneshot(s, fmt, accepted) => if b.active { SubscribeKeeps(b, s, fmt, accepted, true); } else { IdleOneshot(b, s, fmt, accepted); }
    case Unsubscribe(s) => UnsubscribeKeeps(b, s);
    case Teardown => TeardownKeeps(b);
    case Recover(now, a) => RecoverKeeps(b, now, a);
    case _ =>
  }

  /** An inactive base takes no one-shot. */
  lemma IdleOneshot(b: Base, s: SinkId, fmt: Format, accepted: bool)
    requires !b.active
    ensures OneshotStep(b, s, fmt, accepted) == b
  {
  }

  lemma StartStepKeeps(b: Base, a: Answers)
    requires Inv(b)
    ensures Inv(StartStep(b, a))
  {
    var b1 := b.(pending := false, rapid := 0);
    ReleaseKeeps(b1);
    StartKeeps(if b.active then b1 else Release(b1), a);
  }

  /** With every mark taken off, nothing is linked. */
  lemma DetachKeeps(b: Base)
    requires Inv(b) && b.active
    ensures b.linked - {Stat} - AttachedLinks(b.subs) == {}
    ensures Inv(b.(pending := true, active := false, subs := DetachAll(b.subs), linked := {}))
  {
    hide DetachAll;
    NoneAttached(DetachAll(b.subs));
  }

  lemma TeardownKeeps(b: Base)
    requires Inv(b)
    ensures Inv(TeardownStep(b))
  {
    if b.active {
      DetachKeeps(b);
      hide Inv, DetachAll, ReleaseOneshot;
      ReleaseKeeps(b.(pending := false, active := false, subs := DetachAll(b.subs), linked := {}));
    }
  }

  lemma RecoverKeeps(b: Base, now: u32, a: Answers)
    requires Inv(b)
    ensures Inv(RecoverStep(b, now, a))
  {
    hide Inv, StartLocked, Sub32;
    var b1 := b.(pending := false);
    InvWeaker(b, b.(pending := true));
    if b.active {
      ActiveInv(b, b1);
    } else {
      ReleaseKeeps(b1);
      var b2 := b1.(last := now, rapid := if Sub32(now, b.last) < RECOVER_WINDOW then b.rapid + 1 else 0);
      InvWeaker(b, b2.(pending := true));
      ReleaseKeeps(b2);
      StartKeeps(b2, a);
      var (b3, ok) := StartLocked(b2, a);
      if !ok { ReleaseKeeps(b3); }
    }
  }

  lemma ActiveInv(b: Base, b': Base)
    requires Inv(b) && b.active && b' == b.(pending := b'.pending)
    ensures Inv(b')
  {
  }

  lemma {:induction false} RunKeeps(b: Base, es: seq<Event>)
    requires Inv(b)
    ensures Inv(Run(b, es))
    decreases |es|
  {
    if es == [] {
    } else {
      StepKeeps(b, es[0]);
      RunKeeps(Next(b, es[0]), es[1..]);
    }
  }

  /** Building the pipeline wipes its sink list; at that point nothing is linked, so no sink
      is orphaned. */
  lemma StartFindsNothingLinked(b: Base)
    requires Inv(b) && !b.active
    ensures b.linked == {}
  {
    NoneAttached(b.subs);
  }

  // ---- stop is final -----------------------------------------------------------

  /** The base is off for good, or will be at the producer's next teardown. */
  predicate Halting(b: Base) { !b.pending && (b.active ==> b.stopReq) }

  lemma {:induction false} HaltingStays(b: Base, es: seq<Event>)
    requires Halting(b) && forall i :: 0 <= i < |es| ==> !es[i].Start?
    ensures Halting(Run(b, es)) && (!b.active ==> !Run(b, es).active)
    decreases |es|
  {
    if es == [] {
    } else {
      assert Halting(Next(b, es[0])) && (!b.active ==> !Next(b, es[0]).active);
      HaltingStays(Next(b, es[0]), es[1..]);
    }
  }

  /** After `camera_stream_stop`, and until the next explicit start, the base never becomes
      active again once it is off, whatever overruns, teardowns and recoveries race with it;
      and the producer's next teardown turns it off. */
  lemma StopIsFinal(b: Base, before: seq<Event>, after: seq<Event>)
    requires forall i :: 0 <= i < |before| ==> !before[i].Start?
    requires forall i :: 0 <= i < |after| ==> !after[i].Start?
    ensures var b1 := Run(StopStep(b), before);
            && Halting(b1)
            && (!b1.active ==> !Run(b1, after).active)
            && !TeardownStep(b1).active && !TeardownStep(b1).pending
  {
    HaltingStays(StopStep(b), before);
    HaltingStays(Run(StopStep(b), before), after);
  }

  // ---- recovery is bounded -------------------------------------------------------

  /** The event is an automatic restart that works. */
  predicate Restarts(b: Base, e: Event) {
    e.Recover? && b.pending && !b.active && Next(b, e).active
  }

  function RestartCount(b: Base, es: seq<Event>): nat
    decreases |es|
  {
    if es == [] then 0 else (if Restarts(b, es[0]) then 1 else 0) + RestartCount(Next(b, es[0]), es[1..])
  }

  /** No explicit start, and each recovery comes within the window after the one before. */
  predicate RapidChain(b: Base, es: seq<Event>)
    decreases |es|
  {
    es == [] ||
    (&& !es[0].Start?
     && (es[0].Recover? && b.pending && !b.active ==> Sub32(es[0].now, b.last) < RECOVER_WINDOW)
     && RapidChain(Next(b, es[0]), es[1..]))
  }

  lemma RapidStep(b: Base, e: Event)
    requires !e.Start?
    ensures var b' := Next(b, e);
            if e.Recover? && b.pending && !b.active && Sub32(e.now, b.last) < RECOVER_WINDOW
            then b'.rapid == b.rapid + 1 && (Restarts(b, e) ==> b'.rapid < RECOVER_GIVEUP)
            else (e.Recover? && b.pending && !b.active) || b'.rapid == b.rapid
  {
  }

  lemma {:induction false} RapidBound(b: Base, es: seq<Event>)
    requires RapidChain(b, es)
    ensures RestartCount(b, es) + b.rapid <= RECOVER_GIVEUP - 1 || RestartCount(b, es) == 0
    decreases |es|
  {
    if es == [] {
    } else {
      RapidStep(b, es[0]);
      RapidBound(Next(b, es[0]), es[1..]);
    }
  }

  /** Overruns that keep coming within 8 seconds of the last recovery: counting the recovery
      that opens the chain, there are at most six automatic restarts. */
  lemma BoundedRecovery(b: Base, now: u32, a: Answers, es: seq<Event>)
    requires RapidChain(Next(b, Recover(now, a)), es)
    ensures RestartCount(b, [Recover(now, a)] + es) <= RECOVER_GIVEUP
  {
    var first := Recover(now, a);
    assert ([first] + es)[1..] == es;
    RapidBound(Next(b, first), es);
  }

  // ---- what the sections do, told by the registrations ------------------------------

  /** The subscriber is enabled for @p fmt. */
  predicate Willing(sub: Sub, fmt: Format) { sub.sink.Some? && sub.enabled && sub.fmt == fmt }

  /** The links of the subscribers enabled for @p fmt. */
  function WillingLinks(subs: seq<Sub>, fmt: Format): set<Link> {
    set i | 0 <= i < |subs| && Willing(subs[i], fmt) :: External(subs[i].sink.value)
  }

  /** @p r is @p subs with exactly the subscribers enabled for @p fmt attached. */
  predicate JustWilling(r: seq<Sub>, subs: seq<Sub>, fmt: Format) {
    |r| == |subs| && forall i :: 0 <= i < |subs| ==> r[i] == subs[i].(attached := Willing(subs[i], fmt))
  }

  /** @p r is @p subs detached, without the one-shot registrations. */
  predicate OnlyLasting(r: seq<Sub>, subs: seq<Sub>) {
    |r| == |subs| && forall i :: 0 <= i < |subs| ==>
      r[i] == if subs[i].oneshot then Sub(None, subs[i].fmt, false, false, false) else subs[i].(attached := false)
  }

  /** Every subscriber enabled for @p fmt accepts to be attached. */
  predicate AllAccept(subs: seq<Sub>, fmt: Format, a: Answers) {
    forall i :: 0 <= i < |subs| && Willing(subs[i], fmt) ==> Accepts(a, i)
  }

  /** A teardown of an active base leaves nothing running and nothing linked. It leaves a
      recovery pending exactly after an error that no stop came with; the one-shot
      registrations outlive it exactly then, the lasting ones always. */
  lemma TeardownLaw(b: Base)
    requires Inv(b) && b.active
    ensures var b' := Next(b, Teardown);
            && !b'.active && b'.linked == {} && (b'.pending <==> b.err && !b.stopReq)
            && b'.fmt == b.fmt && b'.rapid == b.rapid && b'.last == b.last
            && (b.err && !b.stopReq ==>
                  && |b'.subs| == |b.subs|
                  && forall i :: 0 <= i < |b.subs| ==> b'.subs[i] == b.subs[i].(attached := false))
            && (!b.err || b.stopReq ==> OnlyLasting(b'.subs, b.subs))
  {
    hide DetachAll, ReleaseOneshot;
    DetachKeeps(b);
    ReleaseMeans(b, DetachAll(b.subs));
  }

  /** In the registry a one-shot mark belongs to a registration. */
  lemma ReleaseMeans(b: Base, subs: seq<Sub>)
    requires Inv(b) && |subs| == |b.subs| && forall i :: 0 <= i < |subs| ==> subs[i] == b.subs[i].(attached := false)
    ensures OnlyLasting(ReleaseOneshot(subs), b.subs)
  {
    hide ReleaseOneshot, AttachedLinks;
  }

  /** Attaching succeeds exactly if every willing subscriber accepts. */
  lemma {:induction false} AttachAllSucceeds(subs: seq<Sub>, fmt: Format, a: Answers, from: nat)
    requires from <= |subs|
    ensures AttachAll(subs, fmt, a, from).1 <==> forall i :: from <= i < |subs| && Wants(subs[i], fmt) ==> Accepts(a, i)
    decreases |subs| - from
  {
    if from == |subs| {
    } else {
      if !Wants(subs[from], fmt) {
        AttachAllSucceeds(subs, fmt, a, from + 1);
      } else if Accepts(a, from) {
        AttachAllSucceeds(subs[from := subs[from].(attached := true)], fmt, a, from + 1);
      }
    }
  }

  /** A start of an idle base succeeds exactly if the hardware is ready, every subscriber
      enabled for the base's format accepts and the DMA is armed; exactly these subscribers
      and the counting sink are then linked. One that fails leaves nothing linked. */
  lemma StartLockedLaw(b: Base, a: Answers)
    requires Inv(b.(pending := true)) && !b.active
    ensures var (b', ok) := StartLocked(b, a);
            && (ok <==> a.ready && a.armed && AllAccept(b.subs, b.fmt, a)) && b'.active == ok
            && b'.pending == b.pending && b'.rapid == b.rapid && b'.last == b.last && b'.fmt == b.fmt
            && (ok ==>
                  && !b'.err && !b'.stopReq && JustWilling(b'.subs, b.subs, b.fmt)
                  && b'.linked == {Stat} + WillingLinks(b.subs, b.fmt))
            && (!ok ==> b'.subs == b.subs && b'.linked == {})
  {
    hide AttachAll, DetachAll, AttachedLinks, WillingLinks;
    IdleUnmarked(b.(pending := true));
    AttachAllMarks(b.subs, b.fmt, a, 0);
    AttachAllSucceeds(b.subs, b.fmt, a, 0);
    StartFindsNothingLinked(b.(pending := true));
    var (subs, ok) := AttachAll(b.subs, b.fmt, a, 0);
    if ok {
      assert JustWilling(subs, b.subs, b.fmt);
      JustWillingLinks(subs, b.subs, b.fmt);
      assert DetachAll(subs) == b.subs;
    } else {
      assert subs == b.subs;
    }
  }

  lemma JustWillingLinks(r: seq<Sub>, subs: seq<Sub>, fmt: Format)
    requires JustWilling(r, subs, fmt)
    ensures AttachedLinks(r) == WillingLinks(subs, fmt)
  {
    forall l | l in WillingLinks(subs, fmt) ensures l in AttachedLinks(r) {
      var i :| 0 <= i < |subs| && Willing(subs[i], fmt) && External(subs[i].sink.value) == l;
      assert r[i].attached;
    }
    forall l | l in AttachedLinks(r) ensures l in WillingLinks(subs, fmt) {
      var i :| 0 <= i < |r| && r[i].attached && r[i].sink.Some? && External(r[i].sink.value) == l;
      assert Willing(subs[i], fmt);
    }
  }

  /** The count of rapid recoveries a recovery at @p now arrives at. */
  function RapidAt(b: Base, now: u32): nat { if Sub32(now, b.last) < 8000 then b.rapid + 1 else 0 }

  /** A recovery that is pending brings the base back exactly if it is not the sixth rapid one
      and the start succeeds: at its format, with exactly the subscribers enabled for it linked,
      one-shots included. Otherwise the base stays off and the one-shots go. */
  lemma RecoverLaw(b: Base, now: u32, a: Answers)
    requires Inv(b) && b.pending && !b.active
    ensures var b' := Next(b, Recover(now, a));
            && (b'.active <==> RapidAt(b, now) < 6 && a.ready && a.armed && AllAccept(b.subs, b.fmt, a))
            && !b'.pending && b'.rapid == RapidAt(b, now) && b'.last == now && b'.fmt == b.fmt
            && (b'.active ==>
                  && !b'.err && !b'.stopReq && JustWilling(b'.subs, b.subs, b.fmt)
                  && b'.linked == {Stat} + WillingLinks(b.subs, b.fmt))
            && (!b'.active ==> OnlyLasting(b'.subs, b.subs) && b'.linked == {})
  {
    hide StartLocked, Inv, ReleaseOneshot, WillingLinks, AllAccept, JustWilling, OnlyLasting, Sub32;
    var b1 := b.(pending := false, last := now, rapid := RapidAt(b, now));
    InvWeaker(b, b1.(pending := true));
    StartLockedLaw(b1, a);
    IdleUnmarked(b);
    StartFindsNothingLinked(b);
    ReleaseMeans(b, b.subs);
  }

  /** A recovery that is cancelled or finds the base running starts nothing. */
  lemma RecoverCancelled(b: Base, now: u32, a: Answers)
    requires Inv(b) && (!b.pending || b.active)
    ensures var b' := Next(b, Recover(now, a));
            b' == b.(pending := false, subs := b'.subs) && if b.active then b'.subs == b.subs else OnlyLasting(b'.subs, b.subs)
  {
    hide StartLocked, ReleaseOneshot;
    if !b.active { ReleaseMeans(b, b.subs); }
  }

  /** An explicit start of an idle base clears the back-off and drops orphaned one-shots; it then
      succeeds exactly if the hardware is ready, the lasting subscribers enabled for the base's
      format accept and the DMA is armed, and links exactly these. */
  lemma StartLaw(b: Base, a: Answers)
    requires Inv(b) && !b.active
    ensures var b', kept := Next(b, Start(a)), ReleaseOneshot(b.subs);
            && OnlyLasting(kept, b.subs)
            && (b'.active <==> a.ready && a.armed && AllAccept(kept, b.fmt, a))
            && !b'.pending && b'.rapid == 0 && b'.fmt == b.fmt
            && (b'.active ==>
                  && !b'.err && !b'.stopReq && JustWilling(b'.subs, kept, b.fmt)
                  && b'.linked == {Stat} + WillingLinks(kept, b.fmt))
            && (!b'.active ==> b'.subs == kept && b'.linked == {})
  {
    hide StartLocked, Inv, ReleaseOneshot, WillingLinks, AllAccept, JustWilling, OnlyLasting;
    var b1 := b.(pending := false, rapid := 0);
    InvWeaker(b, b1.(pending := true));
    IdleUnmarked(b);
    ReleaseMeans(b, b.subs);
    ReleaseKeeps(b1);
    InvWeaker(Release(b1), Release(b1).(pending := true));
    StartLockedLaw(Release(b1), a);
  }

  /** A stop cancels a recovery; it asks the producer to tear a running base down, and drops the
      one-shots of an idle one. An overrun of a running base is an error. A start of a running
      base only clears the back-off. */
  lemma RequestLaws(b: Base, a: Answers)
    requires Inv(b)
    ensures b.active ==>
              && Next(b, Stop) == b.(pending := false, stopReq := true)
              && Next(b, Overrun) == b.(err := true)
              && Next(b, Start(a)) == b.(pending := false, rapid := 0)
              && Next(b, PowerOff) == b
    ensures !b.active ==>
              var b' := Next(b, Stop);
              && b' == b.(pending := false, subs := b'.subs) && OnlyLasting(b'.subs, b.subs)
              && Next(b, PowerOff) == b' && Next(b, Overrun) == b && Next(b, Teardown) == b
  {
    hide ReleaseOneshot, DetachAll, AttachAll;
    if !b.active { ReleaseMeans(b, b.subs); }
  }

  /** An overrun heals: with fewer than six rapid attempts behind it, a running base that
      overruns is running again after the teardown and the recovery, with exactly the
      subscribers linked that were enabled for its format, one-shots included. */
  lemma OverrunHeals(b: Base, now: u32, a: Answers)
    requires Inv(b) && b.active && !b.stopReq && RapidAt(b, now) < 6
    requires a.ready && a.armed && AllAccept(b.subs, b.fmt, a)
    ensures var b' := Run(b, [Overrun, Teardown, Recover(now, a)]);
            && b'.active && !b'.err && !b'.stopReq && !b'.pending && b'.fmt == b.fmt
            && b'.linked == {Stat} + WillingLinks(b.subs, b.fmt) && JustWilling(b'.subs, b.subs, b.fmt)
  {
    hide Inv, Next, WillingLinks, AttachedLinks;
    var es := [Overrun, Teardown, Recover(now, a)];
    RequestLaws(b, a);
    StepKeeps(b, Overrun);
    var b1 := Next(b, Overrun);
    TeardownLaw(b1);
    StepKeeps(b1, Teardown);
    var b2 := Next(b1, Teardown);
    DetachedWilling(b.subs, b2.subs, b.fmt);
    RecoverLaw(b2, now, a);
    ThreeSteps(b, es);
  }

  lemma ThreeSteps(b: Base, es: seq<Event>)
    requires |es| == 3
    ensures Run(b, es) == Next(Next(Next(b, es[0]), es[1]), es[2])
  {
    hide Next;
    assert es[1..][1..] == [es[2]];
    assert Run(Next(b, es[0]), es[1..]) == Run(Next(Next(b, es[0]), es[1]), es[1..][1..]);
  }

  lemma DetachedWilling(subs: seq<Sub>, r: seq<Sub>, fmt: Format)
    requires |r| == |subs| && forall i :: 0 <= i < |subs| ==> r[i] == subs[i].(attached := false)
    ensures WillingLinks(r, fmt) == WillingLinks(subs, fmt)
    ensures forall a :: AllAccept(subs, fmt, a) ==> AllAccept(r, fmt, a)
  {
    forall l | l in WillingLinks(subs, fmt) ensures l in WillingLinks(r, fmt) {
      var i :| 0 <= i < |subs| && Willing(subs[i], fmt) && External(subs[i].sink.value) == l;
      assert Willing(r[i], fmt);
    }
    forall l | l in WillingLinks(r, fmt) ensures l in WillingLinks(subs, fmt) {
      var i :| 0 <= i < |r| && Willing(r[i], fmt) && External(r[i].sink.value) == l;
      assert Willing(subs[i], fmt);
    }
    forall a | AllAccept(subs, fmt, a) ensures AllAccept(r, fmt, a) {
      forall i | 0 <= i < |r| && Willing(r[i], fmt) ensures Accepts(a, i) { assert Willing(subs[i], fmt); }
    }
  }

  // ---- subscribing --------------------------------------------------------------

  /** @p s is registered, or there is a free slot for it. */
  predicate Room(subs: seq<Sub>, s: SinkId) { exists i :: 0 <= i < |subs| && subs[i].sink in {Some(s), None} }

  predicate Registered(subs: seq<Sub>, s: SinkId) { exists i :: 0 <= i < |subs| && subs[i].sink == Some(s) }

  /** @p s is registered and enabled for @p fmt, attached or not. */
  predicate Enrolled(subs: seq<Sub>, s: SinkId, fmt: Format, attached: bool, oneshot: bool) {
    exists i :: 0 <= i < |subs| && subs[i] == Sub(Some(s), fmt, true, attached, oneshot)
  }

  /** Nobody's registration but that of @p s has changed. */
  predicate OthersSame(a: seq<Sub>, b: seq<Sub>, s: SinkId) {
    && |a| == |b|
    && forall i :: 0 <= i < |a| && a[i].sink.Some? && a[i].sink != Some(s) ==> b[i] == a[i]
  }

  /** What registering does: it finds room whenever there is some. */
  lemma RegisterLaw(subs: seq<Sub>, s: SinkId, fmt: Format, oneshot: bool)
    ensures var (r, k) := Register(subs, s, fmt, oneshot);
            && |r| == |subs| && OthersSame(subs, r, s)
            && (k < |r| <==> Room(subs, s))
            && (k < |r| ==>
                  && subs[k].sink in {Some(s), None} && r[k] == Sub(Some(s), fmt, true, subs[k].attached, oneshot)
                  && r == subs[k := r[k]] && (Registered(subs, s) ==> subs[k].sink == Some(s)))
            && (k >= |r| ==> r == subs)
  {
  }

  /** A link belongs to a registration that is attached. */
  lemma LinkOf(b: Base, s: SinkId, k: nat)
    requires Inv(b) && k < |b.subs|
    requires b.subs[k].sink == Some(s) || (b.subs[k].sink.None? && !Registered(b.subs, s))
    ensures External(s) in b.linked <==> b.subs[k].attached
  {
    if b.subs[k].attached {
      assert External(s) in AttachedLinks(b.subs);
    } else {
      forall i | 0 <= i < |b.subs| && b.subs[i].attached && b.subs[i].sink.Some? ensures b.subs[i].sink.value != s {
        assert b.subs[i].sink == Some(s) ==> i == k;
      }
    }
  }

  lemma ClearedGone(b: Base, s: SinkId, k: nat, sub: Sub)
    requires Inv(b) && k < |b.subs| && sub.sink.None?
    requires b.subs[k].sink == Some(s) || (b.subs[k].sink.None? && !Registered(b.subs, s))
    ensures !Registered(b.subs[k := sub], s)
  {
    hide AttachedLinks;
  }

  /** A subscription that finds room stays off the pipeline while the base is off or of another
      format; on a running base of its format it is linked at once if it accepts, and leaves no
      registration if it refuses. */
  lemma SubscribeLaw(b: Base, s: SinkId, fmt: Format, accepted: bool)
    requires Inv(b)
    ensures var b', live := Next(b, Subscribe(s, fmt, accepted)), b.active && b.fmt == fmt;
            && (!Room(b.subs, s) ==> b' == b)
            && OthersSame(b.subs, b'.subs, s) && b' == b.(subs := b'.subs, linked := b'.linked)
            && (Room(b.subs, s) && live && (accepted || External(s) in b.linked) ==>
                  Enrolled(b'.subs, s, fmt, true, false) && b'.linked == b.linked + {External(s)})
            && (Room(b.subs, s) && live && !accepted && External(s) !in b.linked ==>
                  !Registered(b'.subs, s) && b'.linked == b.linked)
            && (Room(b.subs, s) && !live ==>
                  Enrolled(b'.subs, s, fmt, External(s) in b.linked, false) && b'.linked == b.linked)
  {
    hide Register, AttachedLinks;
    RegisterLaw(b.subs, s, fmt, false);
    var (subs, k) := Register(b.subs, s, fmt, false);
    if k < |subs| {
      LinkOf(b, s, k);
      ClearedGone(b, s, k, Cleared(subs[k]));
      assert subs[k := Cleared(subs[k])] == b.subs[k := Cleared(subs[k])];
      if !(b.active && b.fmt == fmt && !accepted && !b.subs[k].attached) {
        assert Next(b, Subscribe(s, fmt, accepted)).subs[k].sink == Some(s);
      }
    }
  }

  /** A one-shot subscription needs a running base of its format: it is linked at once, or it
      leaves nothing behind. */
  lemma OneshotLaw(b: Base, s: SinkId, fmt: Format, accepted: bool)
    requires Inv(b)
    ensures var b', live := Next(b, SubscribeOneshot(s, fmt, accepted)), b.active && b.fmt == fmt;
            && (!live || !Room(b.subs, s) ==> b' == b)
            && OthersSame(b.subs, b'.subs, s) && b' == b.(subs := b'.subs, linked := b'.linked)
            && (Room(b.subs, s) && live && (accepted || External(s) in b.linked) ==>
                  Enrolled(b'.subs, s, fmt, true, true) && b'.linked == b.linked + {External(s)})
            && (Room(b.subs, s) && live && !accepted && External(s) !in b.linked ==>
                  !Registered(b'.subs, s) && b'.linked == b.linked)
  {
    hide Register, AttachedLinks;
    RegisterLaw(b.subs, s, fmt, true);
    var (subs, k) := Register(b.subs, s, fmt, true);
    if k < |subs| {
      LinkOf(b, s, k);
      ClearedGone(b, s, k, Cleared(subs[k]));
      assert subs[k := Cleared(subs[k])] == b.subs[k := Cleared(subs[k])];
      if b.active && b.fmt == fmt && (accepted || b.subs[k].attached) {
        assert Next(b, SubscribeOneshot(s, fmt, accepted)).subs[k].sink == Some(s);
      }
    }
  }

  /** An unsubscription leaves neither the registration nor the link, and nobody else's. */
  lemma UnsubscribeLaw(b: Base, s: SinkId)
    requires Inv(b)
    ensures var b' := Next(b, Unsubscribe(s));
            && !Registered(b'.subs, s) && b'.linked == b.linked - {External(s)}
            && OthersSame(b.subs, b'.subs, s) && b' == b.(subs := b'.subs, linked := b'.linked)
  {
    hide AttachedLinks;
    var k := Find(b.subs, Some(s), 0);
    if k < |b.subs| {
      LinkOf(b, s, k);
    } else {
      NotLinked(b, s);
    }
  }

  lemma NotLinked(b: Base, s: SinkId)
    requires Inv(b) && !Registered(b.subs, s)
    ensures External(s) !in b.linked
  {
  }

  // ---- the driver ----------------------------------------------------------------

  class Driver {
    var active: bool
    var stopReq: bool
    var err: bool
    var pending: bool
    var rapid: nat
    var last: u32
    var fmt: Format
    const subs: array<Sub>
    var linked: set<Link>

    ghost function State(): Base
      reads this, subs
    {
      Base(active, stopReq, err, pending, rapid, last, fmt, subs[..], linked)
    }

    constructor ()
      ensures State() == Base(false, false, false, false, 0, 0, Rgb565,
                              [Sub(None, Rgb565, false, false, false), Sub(None, Rgb565, false, false, false),
                               Sub(None, Rgb565, false, false, false)], {})
      ensures Inv(State()) && fresh(subs)
    {
      active, stopReq, err, pending, rapid, last := false, false, false, false, 0, 0;
      fmt, linked := Rgb565, {};
      subs := new Sub[MAX_SUBS](_ => Sub(None, Rgb565, false, false, false));
      new;
      NoneAttached(subs[..]);
    }

    method FindSub(s: Option<SinkId>) returns (i: nat)
      ensures i == Find(subs[..], s, 0)
    {
      i := 0;
      while i < subs.Length
        invariant i <= subs.Length && Find(subs[..], s, 0) == Find(subs[..], s, i)
      {
        if subs[i].sink == s {
          return;
        }
        i := i + 1;
      }
    }

    method RegisterSub(s: SinkId, f: Format, oneshot: bool) returns (k: nat)
      modifies subs
      ensures (subs[..], k) == Register(old(subs[..]), s, f, oneshot)
      ensures k <= subs.Length && (k == subs.Length ==> subs[..] == old(subs[..]))
      ensures k < subs.Length ==> subs[k].sink == Some(s)
    {
      k := FindSub(Some(s));
      if k == subs.Length {
        k := FindSub(None);
      }
      if k == subs.Length {
        return;
      }
      subs[k] := subs[k].(sink := Some(s), fmt := f, enabled := true, oneshot := oneshot);
    }

    method DetachSubs()
      modifies this`linked, subs
      ensures subs[..] == DetachAll(old(subs[..]))
      ensures linked == old(linked) - AttachedLinks(old(subs[..]))
    {
      ghost var was := subs[..];
      for i := 0 to subs.Length
        invariant forall j :: 0 <= j < i ==> subs[j] == was[j].(attached := false)
        invariant forall j :: i <= j < subs.Length ==> subs[j] == was[j]
        invariant linked == old(linked) - AttachedLinks(was[..i])
      {
        assert was[..i + 1] == was[..i] + [was[i]];
        LinksPrefix(was, i);
        if subs[i].attached {
          if subs[i].sink.Some? {
            linked := linked - {External(subs[i].sink.value)};
          }
          subs[i] := subs[i].(attached := false);
        }
      }
      assert was[..subs.Length] == was;
    }

    method ReleaseSubs()
      modifies subs
      ensures subs[..] == ReleaseOneshot(old(subs[..]))
    {
      ghost var was := subs[..];
      for i := 0 to subs.Length
        invariant forall j :: 0 <= j < i ==> subs[j] == Released(was[j])
        invariant forall j :: i <= j < subs.Length ==> subs[j] == was[j]
      {
        if subs[i].sink.Some? && subs[i].oneshot {
          subs[i] := subs[i].(enabled := false, sink := None, oneshot := false);
        }
      }
    }

    /** Attach every enabled subscriber of the base's format; roll back on any refusal. */
    method AttachSubs(a: Answers) returns (ok: bool)
      requires linked == {Stat} && forall i :: 0 <= i < subs.Length ==> !subs[i].attached
      modifies this`linked, subs
      ensures (subs[..], ok) == AttachAll(old(subs[..]), fmt, a, 0)
      ensures linked == {Stat} + AttachedLinks(subs[..])
    {
      NoneAttached(subs[..]);
      ok := true;
      ghost var was := subs[..];
      for i := 0 to subs.Length
        invariant ok && AttachAll(was, fmt, a, 0) == AttachAll(subs[..], fmt, a, i)
        invariant linked == {Stat} + AttachedLinks(subs[..])
        invariant forall j :: i <= j < subs.Length ==> subs[j] == was[j]
      {
        var sub := subs[i];
        if sub.sink.None? || !sub.enabled || sub.attached || sub.fmt != fmt {
          continue;
        }
        if !(i < |a.accepts| && a.accepts[i]) {
          ok := false;
          DetachSubs();
          NoneAttached(subs[..]);
          return;
        }
        LinksGain(subs[..], i, sub.(attached := true));
        ghost var before := subs[..];
        linked := linked + {External(sub.sink.value)};
        subs[i] := sub.(attached := true);
        assert subs[..] == before[i := sub.(attached := true)];
      }
    }

    method StartCapture(a: Answers) returns (ok: bool)
      requires Inv(State().(pending := true))
      modifies this, subs
      ensures (State(), ok) == StartLocked(old(State()), a)
    {
      if active {
        return false;
      }
      if !a.ready {
        return false;
      }
      linked := {};                 // the pipeline is built afresh
      linked := linked + {Stat};
      ok := AttachSubs(a);
      if !ok {
        AttachAllMarks(old(subs[..]), fmt, a, 0);
        NoneAttached(subs[..]);
        linked := linked - {Stat};
        return;
      }
      err, stopReq := false, false;
      if !a.armed {
        DetachSubs();
        linked := linked - {Stat};
        ok := false;
        return;
      }
      active := true;
    }

    method StreamStart(a: Answers) returns (ok: bool)
      requires Inv(State())
      modifies this, subs
      ensures State() == StartStep(old(State()), a) && Inv(State())
      ensures ok == (!old(active) && active) && !pending && rapid == 0
      ensures !old(active) ==>
                var kept := ReleaseOneshot(old(subs[..]));
                && OnlyLasting(kept, old(subs[..])) && (ok <==> a.ready && a.armed && AllAccept(kept, fmt, a))
                && (ok ==> linked == {Stat} + WillingLinks(kept, fmt)) && (!ok ==> linked == {})
    {
      hide Inv, StartLocked, OnlyLasting, AllAccept, WillingLinks, ReleaseOneshot;
      if active { RequestLaws(State(), a); } else { StartLaw(State(), a); }
      StartStepKeeps(State(), a);
      InvWeaker(State(), State().(pending := true, rapid := 0));
      pending, rapid := false, 0;
      if !active {
        ReleaseSubs();
        ReleaseKeeps(old(State()).(pending := false, rapid := 0));
        InvWeaker(State(), State().(pending := true));
      }
      StartKeeps(State(), a);
      ok := StartCapture(a);
    }

    method StreamStop()
      requires Inv(State())
      modifies this, subs
      ensures State() == StopStep(old(State())) && Inv(State())
      ensures !pending && stopReq == (old(stopReq) || active) && active == old(active) && linked == old(linked)
    {
      StepKeeps(State(), Stop);
      pending := false;
      if active {
        stopReq := true;
      } else {
        ReleaseSubs();
      }
    }

    /** The producer's teardown after a stop, a target reached or an overrun. */
    method StreamTeardown()
      requires Inv(State())
      modifies this, subs
      ensures State() == TeardownStep(old(State())) && Inv(State())
      ensures old(active) ==> !active && linked == {} && pending == (old(err) && !old(stopReq))
      ensures old(active) && pending ==> forall i :: 0 <= i < subs.Length ==> subs[i] == old(subs[i]).(attached := false)
      ensures old(active) && !pending ==> OnlyLasting(subs[..], old(subs[..]))
      ensures !old(active) ==> State() == old(State())
    {
      hide Inv, ReleaseOneshot, DetachAll, AttachedLinks, OnlyLasting;
      TeardownKeeps(State());
      if active { TeardownLaw(State()); }
      if active {
        pending := err && !stopReq;
        active := false;
        linked := linked - {Stat};
        DetachSubs();
        if !pending {
          ReleaseSubs();
        }
      }
    }

    method StreamRecover(now: u32, a: Answers)
      requires Inv(State())
      modifies this, subs
      ensures State() == RecoverStep(old(State()), now, a) && Inv(State())
      ensures !pending && (old(active) ==> active && linked == old(linked) && subs[..] == old(subs[..]))
      ensures old(!active && !pending) ==> !active && OnlyLasting(subs[..], old(subs[..]))
      ensures old(!active && pending) ==>
                && (active <==> RapidAt(old(State()), now) < 6 && a.ready && a.armed && AllAccept(old(subs[..]), fmt, a))
                && (active ==> linked == {Stat} + WillingLinks(old(subs[..]), fmt) && JustWilling(subs[..], old(subs[..]), fmt))
                && (!active ==> linked == {} && OnlyLasting(subs[..], old(subs[..])))
    {
      hide Inv, StartLocked, Sub32, OnlyLasting, JustWilling, AllAccept, WillingLinks, ReleaseOneshot, RapidAt;
      RecoverKeeps(State(), now, a);
      if pending && !active { RecoverLaw(State(), now, a); } else { RecoverCancelled(State(), now, a); }
      if !pending || active {
        pending := false;
        if !active {
          ReleaseSubs();
        }
        return;
      }
      pending := false;
      if Sub32(now, last) < RECOVER_WINDOW {
        rapid := rapid + 1;
      } else {
        rapid := 0;
      }
      last := now;
      if rapid >= RECOVER_GIVEUP {
        ReleaseSubs();
        return;
      }
      InvWeaker(old(State()), State().(pending := true));
      Restart(a);
    }

    /** A restart that fails releases the one-shot registrations. */
    method Restart(a: Answers)
      requires Inv(State().(pending := true))
      modifies this, subs
      ensures var (b, ok) := StartLocked(old(State()), a); State() == if ok then b else Release(b)
    {
      hide Inv, StartLocked;
      var ok := StartCapture(a);
      if !ok {
        ReleaseSubs();
      }
    }

    method SubscribeSink(s: SinkId, f: Format, accepted: bool) returns (ok: bool)
      requires Inv(State())
      modifies this`linked, subs
      ensures State() == SubscribeStep(old(State()), s, f, accepted) && Inv(State())
      ensures ok <==> Room(old(subs[..]), s) && (active && f == fmt ==> accepted || External(s) in old(linked))
      ensures ok ==> Enrolled(subs[..], s, f, External(s) in linked, false)
      ensures ok && active && f == fmt ==> External(s) in linked
      ensures linked == (if ok && active && f == fmt then old(linked) + {External(s)} else old(linked))
    {
      hide Inv, Register, Room, Registered, Enrolled, OthersSame;
      StepKeeps(State(), Subscribe(s, f, accepted));
      SubscribeLaw(State(), s, f, accepted);
      RegisterLaw(subs[..], s, f, false);
      ghost var j := Register(subs[..], s, f, false).1;
      if j < subs.Length { LinkOf(State(), s, j); }
      var k := RegisterSub(s, f, false);
      if k == subs.Length {
        return false;
      }
      ok := true;
      if active && !subs[k].attached && subs[k].fmt == fmt {
        if accepted {
          linked := linked + {External(s)};
          subs[k] := subs[k].(attached := true);
        } else {
          subs[k] := subs[k].(sink := None, enabled := false, oneshot := false);
          ok := false;
        }
      }
    }

    method SubscribeOneshotSink(s: SinkId, f: Format, accepted: bool) returns (ok: bool)
      requires Inv(State())
      modifies this`linked, subs
      ensures State() == OneshotStep(old(State()), s, f, accepted) && Inv(State())
      ensures ok <==> active && f == fmt && Room(old(subs[..]), s) && (accepted || External(s) in old(linked))
      ensures ok ==> Enrolled(subs[..], s, f, true, true)
      ensures linked == (if ok then old(linked) + {External(s)} else old(linked))
    {
      hide Inv, Register, Room, Registered, Enrolled, OthersSame;
      StepKeeps(State(), SubscribeOneshot(s, f, accepted));
      OneshotLaw(State(), s, f, accepted);
      RegisterLaw(subs[..], s, f, true);
      ghost var j := Register(subs[..], s, f, true).1;
      if j < subs.Length { LinkOf(State(), s, j); }
      if !active || fmt != f {
        return false;
      }
      var k := RegisterSub(s, f, true);
      if k == subs.Length {
        return false;
      }
      if subs[k].attached {
        return true;
      }
      if !accepted {
        subs[k] := subs[k].(sink := None, enabled := false, oneshot := false);
        return false;
      }
      linked := linked + {External(s)};
      subs[k] := subs[k].(attached := true);
      return true;
    }

    method UnsubscribeSink(s: SinkId)
      requires Inv(State())
      modifies this`linked, subs
      ensures State() == UnsubscribeStep(old(State()), s) && Inv(State())
      ensures !Registered(subs[..], s) && linked == old(linked) - {External(s)} && OthersSame(old(subs[..]), subs[..], s)
    {
      hide Inv, Registered, OthersSame;
      UnsubscribeKeeps(State(), s);
      UnsubscribeLaw(State(), s);
      var k := FindSub(Some(s));
      if k < subs.Length {
        if subs[k].attached {
          linked := linked - {External(s)};
          subs[k] := subs[k].(attached := false);
        }
        subs[k] := subs[k].(enabled := false, oneshot := false, sink := None);
      }
    }
  }

  lemma LinksPrefix(subs: seq<Sub>, i: nat)
    requires i < |subs|
    ensures AttachedLinks(subs[..i + 1]) ==
            AttachedLinks(subs[..i]) + if subs[i].attached && subs[i].sink.Some? then {External(subs[i].sink.value)} else {}
  {
    var a, b := subs[..i], subs[..i + 1];
    forall l | l in AttachedLinks(a) ensures l in AttachedLinks(b) {
      var j :| 0 <= j < |a| && a[j].attached && a[j].sink.Some? && External(a[j].sink.value) == l;
      assert b[j].attached;
    }
    if subs[i].attached && subs[i].sink.Some? {
      assert b[i].attached;
    }
  }
}
