/** The camera frame ring and sink dispatch (svc/frame_pipeline.c): every critical section
    as one function on the pipeline's state, and the engine that performs them in place. */
module FramePipeline {
  import opened Machine

  const MAX_SLOTS := 8
  const MAX_SINKS := 4

  /** A sink's identity: the address of its `struct frame_sink`. */
  type SinkId = nat

  datatype Policy = DropWhenBusy | KeepLatest

  datatype Slot = Slot(filling: bool, refcount: int, gen: u32, bytes: u32)

  datatype Sink = Sink(policy: Policy, busy: bool, pending: Option<nat>, pins: int,
                       delivered: u32, dropped: u32, errors: u32)

  /** @p list is the linked list of attached sinks, head first; @p sinks holds the
      bookkeeping of every sink ever attached, linked or not. */
  datatype Pipe = Pipe(slots: seq<Slot>, list: seq<SinkId>, sinks: map<SinkId, Sink>, latest: int,
                       gen: u32, captured: u32, published: u32, overruns: u32)

  predicate Distinct(list: seq<SinkId>) { forall i, j :: 0 <= i < j < |list| ==> list[i] != list[j] }

  predicate Formed(p: Pipe) {
    && -1 <= p.latest < |p.slots|
    && Distinct(p.list)
    && (forall s <- p.list :: s in p.sinks)
    && (forall s <- p.sinks :: p.sinks[s].pending.Some? ==> p.sinks[s].pending.value < |p.slots|)
  }

  // ---- the critical sections -------------------------------------------------

  predicate Free(p: Pipe, i: nat)
    requires i < |p.slots|
  {
    !p.slots[i].filling && p.slots[i].refcount == 0 && i != p.latest
  }

  predicate HasFree(p: Pipe) { exists i :: 0 <= i < |p.slots| && Free(p, i) }

  /** The lowest free slot. */
  function FirstFree(p: Pipe, from: nat): (r: Option<nat>)
    requires from <= |p.slots|
    ensures r.Some? ==> from <= r.value < |p.slots| && Free(p, r.value)
    ensures r.Some? ==> forall i :: from <= i < r.value ==> !Free(p, i)
    ensures r.None? ==> forall i :: from <= i < |p.slots| ==> !Free(p, i)
    decreases |p.slots| - from
  {
    if from == |p.slots| then None
    else if Free(p, from) then Some(from)
    else FirstFree(p, from + 1)
  }

  function AcquireP(p: Pipe): (Pipe, Option<nat>) {
    match FirstFree(p, 0)
    case None => (p.(overruns := Add32(p.overruns, 1)), None)
    case Some(i) =>
      (p.(slots := p.slots[i := p.slots[i].(filling := true)], captured := Add32(p.captured, 1)), Some(i))
  }

  /** Drop one pin, never below zero. */
  function Unpin(p: Pipe, s: Option<SinkId>, i: nat): Pipe
    requires i < |p.slots|
  {
    var c := p.slots[i].refcount;
    var p1 := p.(slots := p.slots[i := p.slots[i].(refcount := if c > 0 then c - 1 else c)]);
    if s.Some? && s.value in p.sinks then
      var k := p.sinks[s.value];
      p1.(sinks := p.sinks[s.value := k.(pins := if k.pins > 0 then k.pins - 1 else k.pins)])
    else p1
  }

  /** Take one pin. */
  function Pin1(p: Pipe, s: Option<SinkId>, i: nat): Pipe
    requires i < |p.slots|
  {
    var p1 := p.(slots := p.slots[i := p.slots[i].(refcount := p.slots[i].refcount + 1)]);
    if s.Some? && s.value in p.sinks then
      p1.(sinks := p.sinks[s.value := p.sinks[s.value].(pins := p.sinks[s.value].pins + 1)])
    else p1
  }

  /** The new frame in slot @p f meets one attached sink: dropped, made pending (replacing an
      older pending frame), or started. */
  function Offer(p: Pipe, s: SinkId, f: nat): (Pipe, bool)
    requires f < |p.slots| && s in p.sinks
    requires p.sinks[s].pending.Some? ==> p.sinks[s].pending.value < |p.slots|
  {
    var k := p.sinks[s];
    if k.busy && k.policy == DropWhenBusy then
      (p.(sinks := p.sinks[s := k.(dropped := Add32(k.dropped, 1))]), false)
    else if k.busy then
      var p1 := if k.pending.Some? then
                  var u := Unpin(p, Some(s), k.pending.value);
                  u.(sinks := u.sinks[s := u.sinks[s].(dropped := Add32(k.dropped, 1))])
                else p;
      var p2 := p1.(sinks := p1.sinks[s := p1.sinks[s].(pending := Some(f))]);
      (Pin1(p2, Some(s), f), false)
    else
      (Pin1(p.(sinks := p.sinks[s := k.(busy := true)]), Some(s), f), true)
  }

  lemma FormedPending(p: Pipe, s: SinkId)
    requires Formed(p) && s in p.sinks
    ensures p.sinks[s].pending.Some? ==> p.sinks[s].pending.value < |p.slots|
  {
  }

  lemma OfferKeeps(p: Pipe, s: SinkId, f: nat)
    requires f < |p.slots| && Formed(p) && s in p.sinks
    ensures var p1 := Offer(p, s, f).0;
            Formed(p1) && p1.sinks.Keys == p.sinks.Keys && |p1.slots| == |p.slots| && p1.list == p.list
  {
  }

  /** Offer to the sinks of @p list in turn; at most MAX_SINKS deliveries are recorded. */
  function OfferAll(p: Pipe, list: seq<SinkId>, f: nat, n: nat): (r: (Pipe, seq<SinkId>))
    requires f < |p.slots| && Formed(p) && forall s <- list :: s in p.sinks
    ensures Formed(r.0) && |r.0.slots| == |p.slots| && r.0.sinks.Keys == p.sinks.Keys && r.0.list == p.list
    decreases |list|
  {
    if list == [] then (p, [])
    else
      OfferKeeps(p, list[0], f);
      var (p1, d) := Offer(p, list[0], f);
      var here := if d && n < MAX_SINKS then [list[0]] else [];
      var (p2, rest) := OfferAll(p1, list[1..], f, n + |here|);
      (p2, here + rest)
  }

  /** What remains of a publish that has collected @p deliver so far. */
  function Offered(p: Pipe, list: seq<SinkId>, f: nat, deliver: seq<SinkId>): (Pipe, seq<SinkId>)
    requires f < |p.slots| && Formed(p) && forall s <- list :: s in p.sinks
  {
    var (p', rest) := OfferAll(p, list, f, |deliver|);
    (p', deliver + rest)
  }

  lemma OfferedStep(p: Pipe, list: seq<SinkId>, i: nat, f: nat, deliver: seq<SinkId>)
    requires f < |p.slots| && Formed(p) && i < |list| && forall j :: 0 <= j < |list| ==> list[j] in p.sinks
    ensures var (p1, d) := Offer(p, list[i], f);
            && Formed(p1) && p1.sinks.Keys == p.sinks.Keys && |p1.slots| == |p.slots|
            && Offered(p, list[i..], f, deliver) ==
               Offered(p1, list[i + 1..], f, if d && |deliver| < MAX_SINKS then deliver + [list[i]] else deliver)
  {
    hide Offer, Formed;
    FormedPending(p, list[i]);
    OfferKeeps(p, list[i], f);
    var (p1, d) := Offer(p, list[i], f);
    var here := if d && |deliver| < MAX_SINKS then [list[i]] else [];
    assert list[i..][0] == list[i] && list[i..][1..] == list[i + 1..];
    var (p2, rest) := OfferAll(p1, list[i + 1..], f, |deliver| + |here|);
    assert OfferAll(p, list[i..], f, |deliver|) == (p2, here + rest);
    assert deliver + (here + rest) == (deliver + here) + rest && deliver + [] == deliver;
  }

  lemma ListIn(p: Pipe)
    requires Formed(p)
    ensures forall j :: 0 <= j < |p.list| ==> p.list[j] in p.sinks
  {
  }

  lemma OfferedEnd(p: Pipe, list: seq<SinkId>, f: nat, deliver: seq<SinkId>)
    requires f < |p.slots| && Formed(p)
    ensures Offered(p, list[|list|..], f, deliver) == (p, deliver)
  {
    assert list[|list|..] == [] && deliver + [] == deliver;
  }

  /** Stamp the frame and make it the latest. */
  function Stamp(p: Pipe, f: nat, bytes: u32): Pipe
    requires f < |p.slots|
  {
    var g := Add32(p.gen, 1);
    p.(gen := g, slots := p.slots[f := p.slots[f].(gen := g, bytes := bytes, filling := false)], latest := f, published := g)
  }

  function PublishP(p: Pipe, f: nat, bytes: u32): (Pipe, seq<SinkId>)
    requires f < |p.slots| && Formed(p)
  {
    OfferAll(Stamp(p, f, bytes), p.list, f, 0)
  }

  lemma OfferAllUnfold(p: Pipe, list: seq<SinkId>, f: nat, n: nat)
    requires f < |p.slots| && Formed(p) && list != [] && forall s <- list :: s in p.sinks
    ensures var (p1, d) := Offer(p, list[0], f);
            var here := if d && n < MAX_SINKS then [list[0]] else [];
            && Formed(p1) && |p1.slots| == |p.slots| && p1.sinks.Keys == p.sinks.Keys
            && OfferAll(p, list, f, n).0 == OfferAll(p1, list[1..], f, n + |here|).0
            && OfferAll(p, list, f, n).1 == here + OfferAll(p1, list[1..], f, n + |here|).1
  {
    hide Offer, Formed;
    OfferKeeps(p, list[0], f);
    FormedPending(p, list[0]);
  }

  /** Same slots up to their reference counts. */
  ghost predicate SameFrames(a: Pipe, b: Pipe) {
    |a.slots| == |b.slots| && forall i :: 0 <= i < |a.slots| ==> b.slots[i].(refcount := 0) == a.slots[i].(refcount := 0)
  }

  lemma {:induction false} OfferAllFrames(p: Pipe, list: seq<SinkId>, f: nat, n: nat)
    requires f < |p.slots| && Formed(p) && forall s <- list :: s in p.sinks
    ensures SameFrames(p, OfferAll(p, list, f, n).0)
    decreases |list|
  {
    hide Offer;
    if list == [] {
    } else {
      OfferAllUnfold(p, list, f, n);
      OfferFrames(p, list[0], f);
      var (p1, d) := Offer(p, list[0], f);
      var here := if d && n < MAX_SINKS then [list[0]] else [];
      OfferAllFrames(p1, list[1..], f, n + |here|);
    }
  }

  lemma OfferFrames(p: Pipe, s: SinkId, f: nat)
    requires f < |p.slots| && s in p.sinks && Formed(p)
    ensures SameFrames(p, Offer(p, s, f).0)
  {
  }

  lemma OfferRest(p: Pipe, s: SinkId, f: nat)
    requires f < |p.slots| && s in p.sinks
    requires p.sinks[s].pending.Some? ==> p.sinks[s].pending.value < |p.slots|
    ensures var p' := Offer(p, s, f).0; p' == p.(slots := p'.slots, sinks := p'.sinks)
  {
  }

  /** Offering a frame moves no counter of the pipeline. */
  lemma {:induction false} OfferAllRest(p: Pipe, list: seq<SinkId>, f: nat, n: nat)
    requires f < |p.slots| && Formed(p) && forall s <- list :: s in p.sinks
    ensures var p' := OfferAll(p, list, f, n).0; p' == p.(slots := p'.slots, sinks := p'.sinks)
    decreases |list|
  {
    hide Formed, Offer;
    if list == [] {
    } else {
      FormedPending(p, list[0]);
      OfferRest(p, list[0], f);
      OfferAllUnfold(p, list, f, n);
      var (p1, d) := Offer(p, list[0], f);
      var here := if d && n < MAX_SINKS then [list[0]] else [];
      OfferAllRest(p1, list[1..], f, n + |here|);
    }
  }

  /** What meeting a frame in slot @p f makes of a sink: an idle one starts it; a busy one drops
      it, or keeps it as its pending frame in place of an older one, which counts as dropped. */
  predicate Met(k: Sink, k': Sink, f: nat) {
    if !k.busy then k' == k.(busy := true, pins := k.pins + 1)
    else if k.policy == DropWhenBusy then k' == k.(dropped := Add32(k.dropped, 1))
    else if k.pending.None? then k' == k.(pending := Some(f), pins := k.pins + 1)
    else k' == k.(pending := Some(f), dropped := Add32(k.dropped, 1))
  }

  /** The sinks of @p list meet the frame, those that are idle are on the delivery list, and
      nothing happens to any other. */
  ghost predicate AllMeet(p: Pipe, list: seq<SinkId>, f: nat, n: nat, t: SinkId)
    requires f < |p.slots| && Formed(p) && t in p.sinks && forall s <- list :: s in p.sinks
  {
    var (p', deliver) := OfferAll(p, list, f, n);
    && t in p'.sinks
    && (t in deliver <==> t in list && !p.sinks[t].busy)
    && if t in list then Met(p.sinks[t], p'.sinks[t], f) else p'.sinks[t] == p.sinks[t]
  }

  lemma OfferMeets(p: Pipe, s: SinkId, f: nat, t: SinkId)
    requires f < |p.slots| && Formed(p) && s in p.sinks && t in p.sinks && (p.sinks[s].pending.Some? ==> p.sinks[s].pins > 0)
    ensures var (p', d) := Offer(p, s, f);
            && t in p'.sinks && (d <==> !p.sinks[s].busy)
            && if t == s then Met(p.sinks[t], p'.sinks[t], f) else p'.sinks[t] == p.sinks[t]
  {
  }

  /** Every pending frame holds a pin of its sink. */
  predicate Backing(p: Pipe, list: seq<SinkId>) {
    forall s <- list :: s in p.sinks && (p.sinks[s].pending.Some? ==> p.sinks[s].pins > 0)
  }

  lemma {:induction false} OfferAllMeets(p: Pipe, list: seq<SinkId>, f: nat, n: nat, t: SinkId)
    requires f < |p.slots| && Formed(p) && t in p.sinks && Distinct(list) && n + |list| <= MAX_SINKS && Backing(p, list)
    ensures AllMeet(p, list, f, n, t)
    decreases |list|
  {
    hide Offer, Formed, Met;
    if list == [] {
    } else {
      var s := list[0];
      OfferAllUnfold(p, list, f, n);
      OfferMeets(p, s, f, t);
      FormedPending(p, s);
      var (p1, d) := Offer(p, s, f);
      forall r | r in list[1..] ensures r in p1.sinks && (p1.sinks[r].pending.Some? ==> p1.sinks[r].pins > 0) {
        assert r in list && r != s;
        OfferMeets(p, s, f, r);
      }
      OfferAllMeets(p1, list[1..], f, n + (if d then 1 else 0), t);
      assert t in list <==> t == s || t in list[1..];
    }
  }

  /** The range [@p off, @p off + @p len) of the latest frame can be read. */
  predicate ReadsOk(p: Pipe, off: u32, len: u32)
    requires p.latest < |p.slots|
  {
    len > 0 && p.latest >= 0 && off + len <= p.slots[p.latest].bytes
  }

  /** The callback returned: count it. */
  function ConsumedP(p: Pipe, s: SinkId, failed: bool): Pipe
    requires s in p.sinks
  {
    var k := p.sinks[s];
    p.(sinks := p.sinks[s := k.(errors := if failed then Add32(k.errors, 1) else k.errors, delivered := Add32(k.delivered, 1))])
  }

  function AttachP(p: Pipe, s: SinkId, policy: Policy): Pipe {
    p.(sinks := p.sinks[s := Sink(policy, false, None, 0, 0, 0, 0)], list := [s] + p.list)
  }

  function Unlink(list: seq<SinkId>, s: SinkId): (r: seq<SinkId>)
    ensures Distinct(list) ==> Distinct(r) && s !in r
    ensures forall t :: t != s ==> (t in r <==> t in list)
    ensures |r| <= |list|
  {
    if list == [] then []
    else if list[0] == s then
      assert forall t :: t in list <==> t == list[0] || t in list[1..];
      list[1..]
    else
      assert Distinct(list) ==> Distinct(list[1..]) && list[0] !in list[1..];
      assert forall t :: t in list <==> t == list[0] || t in list[1..];
      [list[0]] + Unlink(list[1..], s)
  }

  lemma UnlinkStep(list: seq<SinkId>, s: SinkId)
    ensures Unlink(list, s) == if list == [] then [] else if list[0] == s then list[1..] else [list[0]] + Unlink(list[1..], s)
  {
  }

  /** The first link to @p s is the one that goes. */
  lemma {:induction false} UnlinkAt(list: seq<SinkId>, i: nat, s: SinkId)
    requires i <= |list| && (forall j :: 0 <= j < i ==> list[j] != s) && (i < |list| ==> list[i] == s)
    ensures Unlink(list, s) == if i < |list| then list[..i] + list[i + 1..] else list
    decreases i
  {
    hide Unlink;
    UnlinkStep(list, s);
    if i == 0 {
    } else {
      var rest := list[1..];
      forall j | 0 <= j < i - 1 ensures rest[j] != s { assert rest[j] == list[j + 1]; }
      UnlinkAt(rest, i - 1, s);
      if i < |list| {
        assert [list[0]] + (rest[..i - 1] + rest[i..]) == list[..i] + list[i + 1..];
      }
    }
  }

  function DetachP(p: Pipe, s: SinkId): (Pipe, int)
    requires s in p.sinks
    requires p.sinks[s].pending.Some? ==> p.sinks[s].pending.value < |p.slots|
  {
    var p1 := p.(list := Unlink(p.list, s));
    var k := p.sinks[s];
    var p2 := if k.pending.Some? then
                var u := Unpin(p1, Some(s), k.pending.value);
                u.(sinks := u.sinks[s := u.sinks[s].(pending := None)])
              else p1;
    (p2, p2.sinks[s].pins)
  }

  /** Release a pin; a pending frame becomes the sink's next delivery, keeping its pin. */
  function PutP(p: Pipe, s: Option<SinkId>, i: nat): (Pipe, Option<nat>)
    requires i < |p.slots| && (s.Some? ==> s.value in p.sinks)
  {
    var p1 := Unpin(p, s, i);
    if s.None? then (p1, None)
    else
      var k := p1.sinks[s.value];
      if k.pending.Some? then
        (p1.(sinks := p1.sinks[s.value := k.(pending := None, busy := true)]), k.pending)
      else
        (p1.(sinks := p1.sinks[s.value := k.(busy := false)]), None)
  }

  function PinLatestP(p: Pipe): (Pipe, Option<nat>)
    requires Formed(p)
  {
    if p.latest < 0 then (p, None) else (Pin1(p, None, p.latest), Some(p.latest))
  }

  // ---- the engine ------------------------------------------------------------

  class Engine {
    /** The frames' memory, one stretch of @p slotSize bytes after the other. */
    const memory: array<byte>
    const slotSize: nat
    var slots: array<Slot>
    var list: seq<SinkId>
    var sinks: map<SinkId, Sink>
    var latest: int
    var gen: u32
    var captured: u32
    var published: u32
    var overruns: u32

    ghost function State(): Pipe
      reads this, slots
    {
      Pipe(slots[..], list, sinks, latest, gen, captured, published, overruns)
    }

    ghost predicate Valid()
      reads this, slots
    {
      Formed(State())
    }

    /** Every slot has its stretch of memory. */
    ghost predicate Backed()
      reads this`slots
    {
      slots.Length * slotSize <= memory.Length
    }

    /** `frame_pipeline_init` for a legal slot count. */
    constructor (memory: array<byte>, slotSize: nat, nslots: nat)
      requires 1 <= nslots <= MAX_SLOTS && 0 < slotSize && nslots * slotSize <= memory.Length
      ensures Valid() && fresh(slots) && slots.Length == nslots && this.memory == memory && this.slotSize == slotSize
      ensures Backed()
      ensures State() == Pipe(seq(nslots, _ => Slot(false, 0, 0, 0)), [], map[], -1, 0, 0, 0, 0)
    {
      this.memory, this.slotSize := memory, slotSize;
      slots := new Slot[nslots](_ => Slot(false, 0, 0, 0));
      list, sinks, latest := [], map[], -1;
      gen, captured, published, overruns := 0, 0, 0, 0;
      new;
      assert slots[..] == seq(nslots, _ => Slot(false, 0, 0, 0));
    }

    method Acquire() returns (r: Option<nat>)
      requires Valid()
      modifies this`captured, this`overruns, slots
      ensures Valid() && (State(), r) == AcquireP(old(State()))
      ensures r.Some? ==>
                && r.value < slots.Length && r.value != latest && old(slots[r.value].refcount) == 0 && !old(slots[r.value].filling)
                && slots[r.value] == old(slots[r.value]).(filling := true)
                && captured == Add32(old(captured), 1) && overruns == old(overruns)
      ensures r.None? ==>
                && (forall i :: 0 <= i < slots.Length ==> slots[i].filling || slots[i].refcount != 0 || i == latest)
                && captured == old(captured) && overruns == Add32(old(overruns), 1)
      ensures forall i :: 0 <= i < slots.Length && r != Some(i) ==> slots[i] == old(slots[i])
    {
      r := None;
      ghost var p := State();
      for i := 0 to slots.Length
        invariant r == None && State() == p && slots == old(slots)
        invariant FirstFree(p, 0) == FirstFree(p, i)
        invariant forall j :: 0 <= j < i ==> slots[j].filling || slots[j].refcount != 0 || j == latest
      {
        if !slots[i].filling && slots[i].refcount == 0 && i != latest {
          slots[i] := slots[i].(filling := true);
          r := Some(i);
          captured := Add32(captured, 1);
          assert slots[..] == p.slots[i := slots[i]];
          return;
        }
      }
      overruns := Add32(overruns, 1);
    }

    method UnpinLocked(s: Option<SinkId>, i: nat)
      requires i < slots.Length && (s.Some? ==> s.value in sinks)
      modifies this`sinks, slots
      ensures State() == Unpin(old(State()), s, i)
      ensures old(slots[i].refcount) > 0 ==> slots[i] == old(slots[i]).(refcount := old(slots[i].refcount) - 1)
      ensures s.Some? && old(sinks)[s.value].pins > 0 ==>
                sinks == old(sinks)[s.value := old(sinks)[s.value].(pins := old(sinks)[s.value].pins - 1)]
    {
      if slots[i].refcount > 0 {
        slots[i] := slots[i].(refcount := slots[i].refcount - 1);
      }
      if s.Some? && sinks[s.value].pins > 0 {
        sinks := sinks[s.value := sinks[s.value].(pins := sinks[s.value].pins - 1)];
      }
      ghost var p, c := old(State()), old(slots[i].refcount);
      assert slots[..] == p.slots[i := p.slots[i].(refcount := if c > 0 then c - 1 else c)];
      if s.Some? {
        assert sinks == p.sinks[s.value := sinks[s.value]];
      }
    }

    method PinLocked(s: Option<SinkId>, i: nat)
      requires i < slots.Length && (s.Some? ==> s.value in sinks)
      modifies this`sinks, slots
      ensures State() == Pin1(old(State()), s, i)
    {
      slots[i] := slots[i].(refcount := slots[i].refcount + 1);
      if s.Some? {
        sinks := sinks[s.value := sinks[s.value].(pins := sinks[s.value].pins + 1)];
      }
      ghost var p := old(State());
      assert slots[..] == p.slots[i := p.slots[i].(refcount := p.slots[i].refcount + 1)];
    }

    /** The critical section of `frame_pipeline_publish`; the caller then runs `consume` for
        every sink returned, with the lock released. */
    method Publish(f: nat, bytes: u32) returns (deliver: seq<SinkId>)
      requires Valid() && f < slots.Length
      modifies this`sinks, this`latest, this`gen, this`published, slots
      ensures Valid() && (State(), deliver) == PublishP(old(State()), f, bytes)
      ensures latest == f && gen == Add32(old(gen), 1) == published
      ensures slots[f].bytes == bytes && slots[f].gen == gen && !slots[f].filling
      ensures forall i :: 0 <= i < slots.Length && i != f ==> slots[i] == old(slots[i]).(refcount := slots[i].refcount)
      ensures forall off: u32, len: u32 :: ReadsOk(State(), off, len) <==> 0 < len && off + len <= bytes
    {
      gen := Add32(gen, 1);
      slots[f] := slots[f].(gen := gen, bytes := bytes, filling := false);
      latest := f;
      published := gen;
      assert State() == Stamp(old(State()), f, bytes);
      ghost var stamped := State();
      deliver := OfferEach(f);
      OfferAllFrames(stamped, list, f, 0);
      assert forall i :: 0 <= i < slots.Length ==> slots[i] == stamped.slots[i].(refcount := slots[i].refcount);
    }

    /** The loop of publish over the attached sinks. */
    method OfferEach(f: nat) returns (deliver: seq<SinkId>)
      requires Valid() && f < slots.Length
      modifies this`sinks, slots
      ensures Valid() && (State(), deliver) == OfferAll(old(State()), list, f, 0)
    {
      hide Formed, OfferAll, Offer;
      deliver := [];
      ListIn(State());
      ghost var all := Offered(State(), list[0..], f, []);
      assert list[0..] == list && [] + OfferAll(State(), list, f, 0).1 == OfferAll(State(), list, f, 0).1;
      for i := 0 to |list|
        invariant Valid()
        invariant forall j :: 0 <= j < |list| ==> list[j] in sinks
        invariant Offered(State(), list[i..], f, deliver) == all
      {
        OfferedStep(State(), list, i, f, deliver);
        var started := OfferTo(list[i], f);
        if started && |deliver| < MAX_SINKS {
          deliver := deliver + [list[i]];
        }
      }
      OfferedEnd(State(), list, f, deliver);
    }

    /** The loop body of publish for one sink. */
    method OfferTo(s: SinkId, f: nat) returns (started: bool)
      requires Valid() && f < slots.Length && s in sinks
      modifies this`sinks, slots
      ensures Valid() && (State(), started) == Offer(old(State()), s, f)
      ensures started == !old(sinks)[s].busy
      ensures (old(sinks)[s].pending.Some? ==> old(sinks)[s].pins > 0) ==> Met(old(sinks)[s], sinks[s], f)
    {
      ghost var p := State();
      if sinks[s].busy {
        started := false;
        if sinks[s].policy == DropWhenBusy {
          sinks := sinks[s := sinks[s].(dropped := Add32(sinks[s].dropped, 1))];
          return;
        }
        if sinks[s].pending.Some? {
          UnpinLocked(Some(s), sinks[s].pending.value);
          sinks := sinks[s := sinks[s].(dropped := Add32(sinks[s].dropped, 1))];
        }
        sinks := sinks[s := sinks[s].(pending := Some(f))];
        PinLocked(Some(s), f);
        return;
      }
      started := true;
      sinks := sinks[s := sinks[s].(busy := true)];
      PinLocked(Some(s), f);
    }

    method Consumed(s: SinkId, failed: bool)
      requires Valid() && s in sinks
      modifies this`sinks
      ensures Valid() && State() == ConsumedP(old(State()), s, failed)
      ensures sinks[s].delivered == Add32(old(sinks)[s].delivered, 1)
      ensures sinks[s].errors == Add32(old(sinks)[s].errors, if failed then 1 else 0)
      ensures sinks == old(sinks)[s := old(sinks)[s].(delivered := sinks[s].delivered, errors := sinks[s].errors)]
    {
      if failed {
        sinks := sinks[s := sinks[s].(errors := Add32(sinks[s].errors, 1))];
      }
      sinks := sinks[s := sinks[s].(delivered := Add32(sinks[s].delivered, 1))];
      assert sinks == old(sinks)[s := sinks[s]];
    }

    /** `frame_pipeline_attach`: count, negotiate with the sink (@p accepted is what its
        `open` answers), link at the head. */
    method Attach(s: SinkId, policy: Policy, accepted: bool) returns (ok: bool)
      requires Valid() && s !in list
      modifies this`sinks, this`list
      ensures Valid() && ok == (|old(list)| < MAX_SINKS && accepted)
      ensures State() == if ok then AttachP(old(State()), s, policy) else old(State())
      ensures ok ==> list == [s] + old(list) && sinks == old(sinks)[s := Sink(policy, false, None, 0, 0, 0, 0)]
    {
      var n := 0;
      for i := 0 to |list|
        invariant n == i
      {
        n := n + 1;
      }
      if n >= MAX_SINKS || !accepted {
        return false;
      }
      sinks := sinks[s := Sink(policy, false, None, 0, 0, 0, 0)];
      list := [s] + list;
      return true;
    }

    /** Walk the list and drop the link to @p s. */
    method Relink(s: SinkId)
      modifies this`list
      ensures list == Unlink(old(list), s)
    {
      hide Unlink;
      var i := 0;
      while i < |list| && list[i] != s
        invariant 0 <= i <= |list| && list == old(list) && forall j :: 0 <= j < i ==> list[j] != s
      {
        i := i + 1;
      }
      UnlinkAt(list, i, s);
      if i < |list| {
        list := list[..i] + list[i + 1..];
      }
    }

    method Detach(s: SinkId) returns (inflight: int)
      requires Valid() && s in sinks
      modifies this`sinks, this`list, slots
      ensures Valid() && (State(), inflight) == DetachP(old(State()), s)
      ensures s !in list && forall t :: t != s ==> (t in list <==> t in old(list))
      ensures s in sinks && sinks[s].pending.None? && inflight == sinks[s].pins
      ensures sinks[s].pins == var k := old(sinks)[s]; if k.pending.Some? && k.pins > 0 then k.pins - 1 else k.pins
    {
      ghost var p := State();
      Relink(s);
      assert State() == p.(list := Unlink(p.list, s));
      if sinks[s].pending.Some? {
        UnpinLocked(Some(s), sinks[s].pending.value);
        ghost var u := State();
        sinks := sinks[s := sinks[s].(pending := None)];
        assert u == Unpin(p.(list := Unlink(p.list, s)), Some(s), p.sinks[s].pending.value);
        assert State() == u.(sinks := u.sinks[s := u.sinks[s].(pending := None)]);
      }
      assert State() == DetachP(p, s).0;
      inflight := sinks[s].pins;
      assert inflight == State().sinks[s].pins == DetachP(p, s).1;
    }

    method Get(s: Option<SinkId>, i: nat)
      requires Valid() && i < slots.Length && (s.Some? ==> s.value in sinks)
      modifies this`sinks, slots
      ensures Valid() && State() == Pin1(old(State()), s, i)
      ensures slots[i].refcount == old(slots[i].refcount) + 1
      ensures s.Some? ==> s.value in sinks && sinks[s.value].pins == old(sinks)[s.value].pins + 1
    {
      PinLocked(s, i);
    }

    /** The critical section of `frame_pipeline_put`; @p next is delivered outside it. */
    method Put(s: Option<SinkId>, i: nat) returns (next: Option<nat>)
      requires Valid() && i < slots.Length && (s.Some? ==> s.value in sinks)
      modifies this`sinks, slots
      ensures Valid() && (State(), next) == PutP(old(State()), s, i)
      ensures old(slots[i].refcount) > 0 ==> slots[i].refcount == old(slots[i].refcount) - 1
      ensures next == if s.Some? then old(sinks)[s.value].pending else None
      ensures s.Some? ==> s.value in sinks && sinks[s.value].busy == next.Some? && sinks[s.value].pending.None?
      ensures s.Some? && old(sinks)[s.value].pins > 0 ==> sinks[s.value].pins == old(sinks)[s.value].pins - 1
    {
      next := None;
      UnpinLocked(s, i);
      if s.Some? {
        var k := sinks[s.value];
        sinks := sinks[s.value := sinks[s.value].(busy := false)];
        if sinks[s.value].pending.Some? {
          next := sinks[s.value].pending;
          sinks := sinks[s.value := sinks[s.value].(pending := None)];
          sinks := sinks[s.value := sinks[s.value].(busy := true)];
          assert sinks[s.value] == k.(pending := None, busy := true);
        }
        assert State() == PutP(old(State()), s, i).0;
      }
    }

    method PinLatest() returns (r: Option<nat>)
      requires Valid()
      modifies this`sinks, slots
      ensures Valid() && (State(), r) == PinLatestP(old(State()))
      ensures r == (if latest < 0 then None else Some(latest))
      ensures r.Some? ==> slots[r.value].refcount == old(slots[r.value].refcount) + 1
    {
      r := None;
      if latest >= 0 {
        PinLocked(None, latest);
        r := Some(latest);
      }
    }

    lemma SlotInside(i: nat)
      requires Backed() && i < slots.Length
      ensures 0 <= i * slotSize && i * slotSize + slotSize <= memory.Length
    {
      var d := slots.Length - 1 - i;
      assert slots.Length * slotSize == d * slotSize + i * slotSize + slotSize;
      assert d * slotSize >= 0;
    }

    /** `frame_pipeline_read_latest`: the @p len bytes at @p off of the latest frame, if they lie
        inside it, and its generation. The producer publishes no more than a slot holds. */
    method ReadLatest(off: u32, dst: array<byte>, len: u32) returns (r: Option<u32>)
      requires Valid() && Backed() && dst != memory && len <= dst.Length
      requires latest >= 0 ==> slots[latest].bytes <= slotSize
      modifies dst
      ensures r.Some? <==> len > 0 && latest >= 0 && off + len <= slots[latest].bytes
      ensures r.Some? <==> ReadsOk(State(), off, len)
      ensures r.Some? ==>
                && r.value == slots[latest].gen
                && latest * slotSize + off + len <= memory.Length && 0 <= latest * slotSize
                && dst[..len] == memory[latest * slotSize + off..latest * slotSize + off + len]
      ensures forall i :: (if r.Some? then len else 0) <= i < dst.Length ==> dst[i] == old(dst[i])
    {
      r := None;
      if len == 0 {
        return;
      }
      if latest >= 0 {
        var slot := slots[latest];
        if off < slot.bytes && len <= slot.bytes - off {
          SlotInside(latest);
          var from := latest * slotSize + off;
          forall i | 0 <= i < len { dst[i] := memory[from + i]; }
          r := Some(slot.gen);
        }
      }
    }
  }
}
