/** The producer thread's two service functions (port/camera/camera.c) as the code updates
    the DMA registers and the ring, and their reading as steps of `CameraStream`. */
module CameraProducer {
  import opened Machine
  import opened FramePipeline
  import opened FrameWorld
  import opened CameraStream

  // ---- the end of a JPEG frame -------------------------------------------------------

  /** @p b[..n] ends in the end-of-image marker. */
  predicate EndsAt(b: seq<byte>, n: nat) { 2 <= n <= |b| && b[n - 2] == 0xFF && b[n - 1] == 0xD9 }

  /** A whole JPEG frame: it starts with the start-of-image marker and has an end. */
  ghost predicate Whole(b: seq<byte>) { |b| >= 4 && b[0] == 0xFF && b[1] == 0xD8 && exists n: nat :: EndsAt(b, n) }

  /** `jpeg_trim`: the longest prefix of the @p eff captured bytes that ends in EOI, exactly if
      the frame is whole; nothing beyond the captured bytes is looked at. */
  method JpegTrim(buf: array<byte>, eff: nat) returns (valid: Option<nat>)
    requires eff <= buf.Length
    ensures valid.Some? <==> Whole(buf[..eff])
    ensures valid.Some? ==>
              EndsAt(buf[..eff], valid.value) && forall n :: valid.value < n <= eff ==> !EndsAt(buf[..eff], n)
  {
    if eff < 4 || buf[0] != 0xFF || buf[1] != 0xD8 { return None; }
    var i := eff;
    while i >= 2
      invariant 0 <= i <= eff && forall n :: i < n <= eff ==> !EndsAt(buf[..eff], n)
    {
      if buf[i - 2] == 0xFF && buf[i - 1] == 0xD9 {
        assert EndsAt(buf[..eff], i);
        return Some(i);
      }
      i := i - 1;
    }
    valid := None;
  }

  // ---- what the producer does to the ring and to the hardware -------------------------

  /** One act of the producer: a slot asked of the ring; a DMA memory register pointed at a
      slot; a frame published; the DCMI stopped; a snapshot armed; the stream torn down. */
  datatype Act =
    | Took(free: Option<nat>)
    | Pointed(first: bool, slot: nat)
    | Out(frame: nat, bytes: u32)
    | Halted
    | Armed(slot: nat)
    | TornDown

  lemma AcquireFormed(p: Pipe)
    requires Formed(p)
    ensures Formed(AcquireP(p).0) && |AcquireP(p).0.slots| == |p.slots|
    ensures AcquireP(p).1.Some? ==> AcquireP(p).1.value < |p.slots|
  {
  }

  /** A frame is handed over for a free slot: the ring afterwards, that slot if there is one,
      and the sinks to deliver to. */
  function Exchange(p: Pipe, frame: nat, bytes: u32): (Pipe, Option<nat>, seq<SinkId>)
    requires Formed(p) && frame < |p.slots|
  {
    var (p1, freed) := AcquireP(p);
    AcquireFormed(p);
    if freed.None? then (p1, None, [])
    else var (p2, deliver) := PublishP(p1, frame, bytes); (p2, freed, deliver)
  }

  /** A completed frame is published - it is the latest, with its length and the next generation -
      exactly if some slot is free to take its place; otherwise it is dropped, counted, and nothing
      else happens. */
  lemma ExchangeLaw(p: Pipe, frame: nat, bytes: u32)
    requires Formed(p) && frame < |p.slots| && p.slots[frame].filling
    ensures var (p', freed, deliver) := Exchange(p, frame, bytes);
            && |p'.slots| == |p.slots| && (freed.Some? <==> HasFree(p))
            && (freed.Some? ==>
                  && freed.value < |p.slots| && freed.value != frame && Free(p, freed.value)
                  && p'.slots[freed.value].filling && p'.latest == frame
                  && !p'.slots[frame].filling && p'.slots[frame].bytes == bytes
                  && p'.slots[frame].gen == p'.gen == p'.published == Add32(p.gen, 1))
            && (freed.None? ==> p' == p.(overruns := Add32(p.overruns, 1)) && deliver == [])
  {
    hide OfferAll, Formed;
    AcquireFormed(p);
    var (p1, freed) := AcquireP(p);
    if freed.Some? {
      assert Free(p, freed.value);
      StampFormed(p1, frame, bytes);
      OfferAllFrames(Stamp(p1, frame, bytes), p1.list, frame, 0);
      OfferAllRest(Stamp(p1, frame, bytes), p1.list, frame, 0);
      FrameKept(Stamp(p1, frame, bytes), PublishP(p1, frame, bytes).0, frame);
      FrameKept(Stamp(p1, frame, bytes), PublishP(p1, frame, bytes).0, freed.value);
    }
  }

  lemma StampFormed(p: Pipe, f: nat, bytes: u32)
    requires Formed(p) && f < |p.slots|
    ensures Formed(Stamp(p, f, bytes)) && (forall s <- p.list :: s in Stamp(p, f, bytes).sinks) && |Stamp(p, f, bytes).slots| == |p.slots|
  {
  }

  lemma FrameKept(a: Pipe, b: Pipe, i: nat)
    requires SameFrames(a, b) && i < |a.slots|
    ensures |b.slots| == |a.slots| && b.slots[i] == a.slots[i].(refcount := b.slots[i].refcount)
  {
    assert b.slots[i].(refcount := 0) == a.slots[i].(refcount := 0);
  }

  /** A raster pass that found the CT bit changed: secure a free slot, repoint the register of
      the completed frame, and only then publish it - or drop it. */
  function RasterActs(freed: Option<nat>, ct: bool, frame: nat, bytes: u32): seq<Act> {
    if freed.None? then [Took(None)] else [Took(freed), Pointed(ct, freed.value), Out(frame, bytes)]
  }

  /** What a JPEG pass meets: a stop asked for before it; a frame's end signalled; the DCMI
      stopped when told; a stop asked for meanwhile; the next snapshot armed. */
  datatype Wake = Wake(stop: bool, frame: bool, halted: bool, stopThen: bool, armed: bool)

  predicate Finishes(k: Wake) { !k.stop && k.frame && k.halted }

  /** The middle of a JPEG pass: a whole frame is published for a free slot, or dropped. */
  function FrameActs(valid: Option<u32>, freed: Option<nat>, frame: nat): seq<Act> {
    if valid.None? then [] else if freed.None? then [Took(None)] else [Took(freed), Out(frame, valid.value)]
  }

  /** A JPEG pass, with @p slot to be filled next: the slot is off the DMA before the frame in
      it is looked at, and the next one is armed last. */
  function JpegActs(k: Wake, mid: seq<Act>, slot: nat): seq<Act> {
    if k.stop then [TornDown]
    else if !k.frame then []
    else if !k.halted then [TornDown]
    else [Halted] + mid + [if !k.stopThen && k.armed then Armed(slot) else TornDown]
  }

  // ---- the service functions --------------------------------------------------------------

  class Producer {
    const ring: Engine
    /** The slots the two DMA memory registers point at, and the last CT bit seen. */
    var m0: nat
    var m1: nat
    var lastCt: bool
    /** The slot of the JPEG snapshot under way. */
    var current: nat
    var active: bool
    var ringOverruns: u32
    var truncated: u32
    /** Everything done to the ring and to the hardware, in order. */
    ghost var acts: seq<Act>

    constructor (r: Engine, first: nat, second: nat)
      ensures ring == r && m0 == first && m1 == second && current == first && !lastCt && active
      ensures acts == []
    {
      ring, m0, m1, lastCt, current, active := r, first, second, false, first, true;
      ringOverruns, truncated := 0, 0;
      acts := [];
    }

    // The acts: nothing else touches the ring, the registers or the record of acts.

    method Take() returns (r: Option<nat>)
      requires ring.Valid()
      modifies this`acts, ring`captured, ring`overruns, ring.slots
      ensures ring.Valid() && (ring.State(), r) == AcquireP(old(ring.State())) && acts == old(acts) + [Took(r)]
      ensures r.Some? ==> r.value < ring.slots.Length
    {
      AcquireFormed(ring.State());
      r := ring.Acquire();
      acts := acts + [Took(r)];
    }

    /** `HAL_DMAEx_ChangeMemory` and the slot remembered for the register. */
    method Point(first: bool, slot: nat)
      modifies this`m0, this`m1, this`acts
      ensures m0 == (if first then slot else old(m0)) && m1 == (if first then old(m1) else slot)
      ensures acts == old(acts) + [Pointed(first, slot)]
    {
      if first { m0 := slot; } else { m1 := slot; }
      acts := acts + [Pointed(first, slot)];
    }

    method PublishFrame(frame: nat, bytes: u32) returns (deliver: seq<SinkId>)
      requires ring.Valid() && frame < ring.slots.Length
      modifies this`acts, ring`sinks, ring`latest, ring`gen, ring`published, ring.slots
      ensures ring.Valid() && (ring.State(), deliver) == PublishP(old(ring.State()), frame, bytes)
      ensures acts == old(acts) + [Out(frame, bytes)]
    {
      deliver := ring.Publish(frame, bytes);
      acts := acts + [Out(frame, bytes)];
    }

    /** `HAL_DCMI_Stop` succeeds. */
    method Halt()
      modifies this`acts
      ensures acts == old(acts) + [Halted]
    {
      acts := acts + [Halted];
    }

    /** `cam_jpeg_arm` succeeds. */
    method Arm(slot: nat)
      modifies this`acts
      ensures acts == old(acts) + [Armed(slot)]
    {
      acts := acts + [Armed(slot)];
    }

    method TearDown()
      modifies this`active, this`acts
      ensures !active && acts == old(acts) + [TornDown]
    {
      active := false;
      acts := acts + [TornDown];
    }

    /** `cam_stream_service`: @p stop, a stop condition holds; @p seen, the completions
        signalled; @p ct, the CT bit read. */
    method ServiceRaster(stop: bool, seen: u32, ct: bool, bytes: u32) returns (deliver: seq<SinkId>, done: Option<nat>)
      requires ring.Valid() && m0 < ring.slots.Length && m1 < ring.slots.Length
      modifies this`m0, this`m1, this`lastCt, this`active, this`ringOverruns, this`acts, ring, ring.slots
      ensures ring.Valid()
      ensures stop ==> ring.State() == old(ring.State()) && acts == old(acts) + [TornDown] && !active
      ensures stop ==> m0 == old(m0) && m1 == old(m1) && lastCt == old(lastCt) && ringOverruns == old(ringOverruns)
      ensures stop || ct == old(lastCt) ==> m0 == old(m0) && m1 == old(m1) && deliver == [] && done.None?
      ensures !stop ==> lastCt == ct && active == old(active)
      ensures !stop && ct == old(lastCt) ==> ring.State() == old(ring.State()) && acts == old(acts)
      ensures !stop && ct != old(lastCt) ==>
                var frame := if ct then old(m0) else old(m1);
                var (p, freed, sinks) := Exchange(old(ring.State()), frame, bytes);
                && ring.State() == p && deliver == sinks
                && acts == old(acts) + RasterActs(freed, ct, frame, bytes)
                && (if freed.None? then done.None? && m0 == old(m0) && m1 == old(m1)
                    else done == Some(frame) && (if ct then m0 == freed.value && m1 == old(m1)
                                                 else m1 == freed.value && m0 == old(m0)))
      ensures !stop ==> var lost := seen - (if done.Some? then 1 else 0);
                ringOverruns == if lost > 0 then Add32(old(ringOverruns), lost) else old(ringOverruns)
      ensures !stop && ct != old(lastCt) && old(ring.slots[if ct then m0 else m1].filling) ==>
                var frame := if ct then old(m0) else old(m1);
                && frame < ring.slots.Length && (done == Some(frame) <==> old(HasFree(ring.State())))
                && (done.Some? ==> ring.latest == frame && ring.slots[frame].bytes == bytes && !ring.slots[frame].filling)
    {
      hide Formed, AcquireP, PublishP, HasFree, Exchange, RasterActs;
      deliver, done := [], None;
      if stop {
        TearDown();
        return;
      }
      if ct != lastCt {
        lastCt := ct;
        deliver, done := RasterFrame(ct, bytes);
      }
      var published := if done.Some? then 1 else 0;
      if seen > published {
        ringOverruns := Add32(ringOverruns, seen - published);
      }
    }

    /** Publish the frame a register has completed if a free slot can take its place there. */
    method RasterFrame(ct: bool, bytes: u32) returns (deliver: seq<SinkId>, done: Option<nat>)
      requires ring.Valid() && m0 < ring.slots.Length && m1 < ring.slots.Length
      modifies this`m0, this`m1, this`acts, ring, ring.slots
      ensures ring.Valid()
      ensures var frame := if ct then old(m0) else old(m1);
              var (p, freed, sinks) := Exchange(old(ring.State()), frame, bytes);
              && ring.State() == p && deliver == sinks
              && acts == old(acts) + RasterActs(freed, ct, frame, bytes)
              && (if freed.None? then done.None? && m0 == old(m0) && m1 == old(m1)
                  else done == Some(frame) && (if ct then m0 == freed.value && m1 == old(m1)
                                               else m1 == freed.value && m0 == old(m0)))
      ensures old(ring.slots[if ct then m0 else m1].filling) ==>
                var frame := if ct then old(m0) else old(m1);
                && frame < ring.slots.Length && (done == Some(frame) <==> old(HasFree(ring.State())))
                && (done.Some? ==> ring.latest == frame && ring.slots[frame].bytes == bytes && !ring.slots[frame].filling)
    {
      hide Formed, AcquireP, PublishP, HasFree;
      deliver, done := [], None;
      var frame := if ct then m0 else m1;
      if ring.slots[frame].filling { ExchangeLaw(ring.State(), frame, bytes); }
      var freed := Take();
      if freed.Some? {
        Point(ct, freed.value);
        deliver := PublishFrame(frame, bytes);
        done := Some(frame);
      }
    }

    /** `cam_stream_service_jpeg`: between the stop of the DCMI and its re-arming the trimmed
        frame is published and a free slot is next, or it is dropped and its slot reused. */
    method ServiceJpeg(k: Wake, data: array<byte>, eff: nat) returns (deliver: seq<SinkId>, valid: Option<u32>)
      requires ring.Valid() && current < ring.slots.Length && eff <= data.Length < TWO32
      modifies this`current, this`active, this`ringOverruns, this`truncated, this`acts, ring, ring.slots
      ensures ring.Valid()
      ensures valid.Some? <==> Finishes(k) && Whole(data[..eff])
      ensures valid.Some? ==>
                EndsAt(data[..eff], valid.value) && forall n :: valid.value < n <= eff ==> !EndsAt(data[..eff], n)
      ensures valid.None? ==>
                && ring.State() == old(ring.State()) && deliver == [] && current == old(current)
                && acts == old(acts) + JpegActs(k, [], current)
      ensures valid.Some? ==>
                var (p, freed, sinks) := Exchange(old(ring.State()), old(current), valid.value);
                && ring.State() == p && deliver == sinks && current == (if freed.Some? then freed.value else old(current))
                && acts == old(acts) + JpegActs(k, FrameActs(valid, freed, old(current)), current)
      ensures truncated == if Finishes(k) && valid.None? then Add32(old(truncated), 1) else old(truncated)
      ensures ringOverruns == if valid.Some? && AcquireP(old(ring.State())).1.None? then Add32(old(ringOverruns), 1)
                              else old(ringOverruns)
      ensures active == (old(active) && !k.stop && (k.frame ==> k.halted && !k.stopThen && k.armed))
      ensures valid.Some? && old(ring.slots[current].filling) ==>
                && (current != old(current) <==> old(HasFree(ring.State())))
                && old(current) < ring.slots.Length
                && (current != old(current) ==>
                      && ring.latest == old(current)
                      && ring.slots[old(current)].bytes == valid.value && !ring.slots[old(current)].filling)
    {
      hide Formed, AcquireP, PublishP, Whole, EndsAt, HasFree, Exchange;
      deliver, valid := [], None;
      if k.stop {
        TearDown();
        return;
      }
      if !k.frame { return; }
      if !k.halted {
        TearDown();
        return;
      }
      Halt();
      valid := JpegTrim(data, eff);
      if valid.Some? {
        deliver := HandOver(valid.value);
      } else {
        truncated := Add32(truncated, 1);
      }
      if k.stopThen || !k.armed {
        TearDown();
      } else {
        Arm(current);
      }
    }

    /** Publish the frame just captured if a free slot can take its place. */
    method HandOver(bytes: u32) returns (deliver: seq<SinkId>)
      requires ring.Valid() && current < ring.slots.Length
      modifies this`current, this`ringOverruns, this`acts, ring, ring.slots
      ensures ring.Valid()
      ensures var (p, freed, sinks) := Exchange(old(ring.State()), old(current), bytes);
              && ring.State() == p && deliver == sinks && current == (if freed.Some? then freed.value else old(current))
              && acts == old(acts) + FrameActs(Some(bytes), freed, old(current))
              && ringOverruns == (if freed.None? then Add32(old(ringOverruns), 1) else old(ringOverruns))
              && freed == AcquireP(old(ring.State())).1
      ensures old(ring.slots[current].filling) ==>
                && (current != old(current) <==> old(HasFree(ring.State())))
                && old(current) < ring.slots.Length
                && (current != old(current) ==>
                      && ring.latest == old(current)
                      && ring.slots[old(current)].bytes == bytes && !ring.slots[old(current)].filling)
    {
      hide Formed, AcquireP, PublishP, HasFree;
      if ring.slots[current].filling { ExchangeLaw(ring.State(), current, bytes); }
      deliver := [];
      var freed := Take();
      if freed.None? {
        ringOverruns := Add32(ringOverruns, 1);
        return;
      }
      deliver := PublishFrame(current, bytes);
      current := freed.value;
    }
  }

  // ---- the passes as steps -------------------------------------------------------------------

  /** The acts a step of the camera consists of; other threads and the DMA do none. */
  ghost function ActOf(c: Camera, s: Step): seq<Act>
    requires Good(c) && Can(c, s)
  {
    match s
    case Secure(_) => [Took(AcquireP(c.w.p).1)]
    case Repoint => [Pointed(!c.prod.rpc.second, c.prod.rpc.freed)]
    case PublishRaster(bytes) => [Out(c.prod.rpc.done, bytes)]
    case Stop => [Halted]
    case Swap => [Took(AcquireP(c.w.p).1)]
    case PublishJpeg(bytes) => [Out(c.prod.slot, bytes)]
    case Rearm => [Armed(if c.prod.jpc.Published? then c.prod.jpc.freed else c.prod.slot)]
    case Teardown => [TornDown]
    case _ => []
  }

  ghost function Acts(c: Camera, ss: seq<Step>): seq<Act>
    requires Good(c) && CameraStream.Possible(c, ss)
    decreases |ss|
  {
    if ss == [] then [] else StepKeeps(c, ss[0]); ActOf(c, ss[0]) + Acts(Do(c, ss[0]), ss[1..])
  }

  /** One more step in front of a possible run. */
  lemma StepFirst(c: Camera, s: Step, ss: seq<Step>)
    requires Good(c) && Can(c, s) && Good(Do(c, s)) && CameraStream.Possible(Do(c, s), ss)
    ensures CameraStream.Possible(c, [s] + ss)
    ensures Acts(c, [s] + ss) == ActOf(c, s) + Acts(Do(c, s), ss)
    ensures CameraStream.After(c, [s] + ss) == CameraStream.After(Do(c, s), ss)
  {
    hide Good, Can, Do, ActOf;
    assert ([s] + ss)[1..] == ss;
  }

  /** The steps of a raster pass. */
  function RasterSteps(freed: Option<nat>, ct: bool, bytes: u32): seq<Step> {
    if freed.None? then [Secure(!ct)] else [Secure(!ct), Repoint, PublishRaster(bytes)]
  }

  /** The steps of a JPEG pass. */
  function JpegSteps(k: Wake, valid: Option<u32>, freed: Option<nat>): seq<Step> {
    if k.stop then [Teardown]
    else if !k.frame then []
    else if !k.halted then [Teardown]
    else [Stop] + (if valid.None? then [] else if freed.None? then [Swap] else [Swap, PublishJpeg(valid.value)])
                + [if !k.stopThen && k.armed then Rearm else Teardown]
  }

  lemma NoSteps(c: Camera)
    requires Good(c)
    ensures CameraStream.Possible(c, []) && Acts(c, []) == [] && CameraStream.After(c, []) == c
  {
  }

  lemma CameraFormed(c: Camera)
    requires Good(c)
    ensures Formed(c.w.p) && |c.pixels| == |c.w.p.slots| && forall i <- Owned(c.prod) :: i < |c.w.p.slots|
  {
  }

  /** Asking the ring for a slot is one step of either kind of pass. */
  lemma TakeStep(c: Camera, s: Step)
    requires Good(c) && Can(c, s) && (s.Secure? || s.Swap?)
    ensures var c1 := Do(c, s);
            && Good(c1) && Formed(c.w.p) && c1.w.p == AcquireP(c.w.p).0
            && ActOf(c, s) == [Took(AcquireP(c.w.p).1)]
            && c1.prod == match AcquireP(c.w.p).1
                          case None => c.prod
                          case Some(f) => if s.Secure? then c.prod.(rpc := Secured(s.second, f)) else c.prod.(jpc := Swapped(f))
  {
    StepKeeps(c, s);
    hide Inv;
    CameraFormed(c);
  }

  lemma PublishStep(c: Camera, s: Step, frame: nat)
    requires Good(c) && Can(c, s)
    requires (s.PublishRaster? && frame == c.prod.rpc.done) || (s.PublishJpeg? && frame == c.prod.slot)
    ensures var c1 := Do(c, s);
            && Good(c1) && Formed(c.w.p) && frame < |c.w.p.slots| && c1.w.p == PublishP(c.w.p, frame, s.bytes).0
            && ActOf(c, s) == [Out(frame, s.bytes)]
            && c1.prod == if s.PublishRaster? then c.prod.(rpc := Filling) else c.prod.(jpc := Published(c.prod.jpc.freed))
  {
    hide Inv, PublishP, PublishW;
    StepKeeps(c, s);
    assert frame in Owned(c.prod);
    PublishOwned(c, frame, s.bytes);
    PublishRefines(c.w, frame, s.bytes, 0);
    CameraFormed(c);
  }

  /** A raster pass is the steps Secure, Repoint and PublishRaster - with a frame dropped, just
      Secure: the same acts in the same order, to the same ring, leaving the same registers.
      Everything proved of the steps holds of the service function. */
  lemma RasterPassIsSteps(c: Camera, ct: bool, bytes: u32)
    requires Good(c) && c.prod.Raster? && c.prod.rpc.Filling?
    ensures var frame := if ct then c.prod.m0 else c.prod.m1;
            && Formed(c.w.p) && frame < |c.w.p.slots|
            && var (p, freed, deliver) := Exchange(c.w.p, frame, bytes);
               var ss := RasterSteps(freed, ct, bytes);
               && CameraStream.Possible(c, ss) && Acts(c, ss) == RasterActs(freed, ct, frame, bytes)
               && var c' := CameraStream.After(c, ss);
                  && c'.w.p == p
                  && c'.prod == if freed.None? then c.prod
                                else if ct then Raster(freed.value, c.prod.m1, Filling)
                                else Raster(c.prod.m0, freed.value, Filling)
  {
    hide AcquireP, PublishP, Inv, Formed, CameraStream.Possible, Acts, CameraStream.After, ActOf, Good;
    var frame := if ct then c.prod.m0 else c.prod.m1;
    CameraFormed(c);
    assert frame in Owned(c.prod);
    TakeStep(c, Secure(!ct));
    var c1 := Do(c, Secure(!ct));
    var freed := AcquireP(c.w.p).1;
    if freed.None? {
      NoSteps(c1);
      StepFirst(c, Secure(!ct), []);
      assert [Secure(!ct)] + [] == [Secure(!ct)] && [Took(None)] + [] == [Took(None)];
    } else {
      RepointStep(c1);
      var c2 := Do(c1, Repoint);
      PublishStep(c2, PublishRaster(bytes), frame);
      var c3 := Do(c2, PublishRaster(bytes));
      NoSteps(c3);
      StepFirst(c2, PublishRaster(bytes), []);
      StepFirst(c1, Repoint, [PublishRaster(bytes)] + []);
      StepFirst(c, Secure(!ct), [Repoint] + ([PublishRaster(bytes)] + []));
      assert [Secure(!ct)] + ([Repoint] + ([PublishRaster(bytes)] + [])) == RasterSteps(freed, ct, bytes);
      assert [Took(freed)] + ([Pointed(ct, freed.value)] + ([Out(frame, bytes)] + [])) == RasterActs(freed, ct, frame, bytes);
    }
  }

  lemma RepointStep(c: Camera)
    requires Good(c) && Can(c, Repoint)
    ensures var Secured(second, freed) := c.prod.rpc;
            var c1 := Do(c, Repoint);
            && Good(c1) && c1.w == c.w && ActOf(c, Repoint) == [Pointed(!second, freed)]
            && c1.prod == if second then Raster(c.prod.m0, freed, Repointed(c.prod.m1))
                          else Raster(freed, c.prod.m1, Repointed(c.prod.m0))
  {
    hide Inv;
    StepKeeps(c, Repoint);
  }

  /** Steps that touch no slot of the ring. */
  lemma HardwareStep(c: Camera, s: Step)
    requires Good(c) && Can(c, s) && (s.Stop? || s.Rearm? || s.Teardown?)
    ensures Good(Do(c, s)) && Do(c, s).w == c.w
  {
    hide Inv;
    StepKeeps(c, s);
  }

  /** How a JPEG pass leaves the producer: armed into the next slot, or torn down. */
  function JpegEnd(k: Wake, slot: nat): CameraStream.Producer {
    if k.stop || (k.frame && !(k.halted && !k.stopThen && k.armed)) then Idle({slot}) else Jpeg(slot, Capturing)
  }

  /** The end of a JPEG pass: @p slot is to be filled next. */
  lemma LastStep(c: Camera, k: Wake, slot: nat)
    requires Good(c) && c.prod.Jpeg? && Finishes(k)
    requires (c.prod.jpc.Stopped? && slot == c.prod.slot) || (c.prod.jpc.Published? && slot == c.prod.jpc.freed)
    ensures var s := if !k.stopThen && k.armed then Rearm else Teardown;
            && CameraStream.Possible(c, [s])
            && Acts(c, [s]) == [if !k.stopThen && k.armed then Armed(slot) else TornDown]
            && var c' := CameraStream.After(c, [s]); c'.w == c.w && c'.prod == JpegEnd(k, slot)
  {
    hide Good, CameraStream.Possible, Acts, CameraStream.After;
    var s := if !k.stopThen && k.armed then Rearm else Teardown;
    HardwareStep(c, s);
    NoSteps(Do(c, s));
    StepFirst(c, s, []);
    assert [s] + [] == [s];
    assert ActOf(c, s) + [] == ActOf(c, s);
  }

  /** The frame of a JPEG pass, from the stopped DCMI on: published for a free slot or dropped. */
  lemma FrameSteps(c: Camera, k: Wake, valid: Option<u32>)
    requires Good(c) && c.prod.Jpeg? && c.prod.jpc.Stopped? && Finishes(k)
    ensures Formed(c.w.p) && c.prod.slot < |c.w.p.slots|
    ensures var (p, freed) := if valid.None? then (c.w.p, None) else var x := Exchange(c.w.p, c.prod.slot, valid.value); (x.0, x.1);
            var next := if freed.Some? then freed.value else c.prod.slot;
            var ss := (if valid.None? then [] else if freed.None? then [Swap] else [Swap, PublishJpeg(valid.value)])
                      + [if !k.stopThen && k.armed then Rearm else Teardown];
            && CameraStream.Possible(c, ss)
            && Acts(c, ss) == FrameActs(valid, freed, c.prod.slot) + [if !k.stopThen && k.armed then Armed(next) else TornDown]
            && var c' := CameraStream.After(c, ss); c'.w.p == p && c'.prod == JpegEnd(k, next)
  {
    hide AcquireP, PublishP, Inv, Formed, CameraStream.Possible, Acts, CameraStream.After, ActOf, Good, JpegEnd;
    var frame := c.prod.slot;
    CameraFormed(c);
    assert frame in Owned(c.prod);
    var s := if !k.stopThen && k.armed then Rearm else Teardown;
    if valid.None? {
      LastStep(c, k, frame);
      assert [] + [s] == [s];
    } else {
      TakeStep(c, Swap);
      var c1 := Do(c, Swap);
      var freed := AcquireP(c.w.p).1;
      if freed.None? {
        LastStep(c1, k, frame);
        StepFirst(c, Swap, [s]);
      } else {
        PublishStep(c1, PublishJpeg(valid.value), frame);
        var c2 := Do(c1, PublishJpeg(valid.value));
        LastStep(c2, k, freed.value);
        StepFirst(c1, PublishJpeg(valid.value), [s]);
        StepFirst(c, Swap, [PublishJpeg(valid.value)] + [s]);
        assert [Swap] + ([PublishJpeg(valid.value)] + [s]) == [Swap, PublishJpeg(valid.value)] + [s];
        assert forall a: Act :: [Took(freed)] + ([Out(frame, valid.value)] + [a]) == [Took(freed), Out(frame, valid.value)] + [a];
      }
    }
  }

  /** A JPEG pass is the steps Stop, Swap, PublishJpeg and Rearm - without Swap and PublishJpeg
      for a truncated frame, without PublishJpeg for one dropped, and with Teardown for Rearm
      where the stream ends: the same acts in the same order, to the same ring, leaving the
      producer armed into the same slot. */
  lemma JpegPassIsSteps(c: Camera, k: Wake, valid: Option<u32>)
    requires Good(c) && c.prod.Jpeg? && c.prod.jpc.Capturing? && (valid.Some? ==> Finishes(k))
    ensures Formed(c.w.p) && c.prod.slot < |c.w.p.slots|
    ensures var (p, freed) := if valid.None? then (c.w.p, None) else var x := Exchange(c.w.p, c.prod.slot, valid.value); (x.0, x.1);
            var next := if freed.Some? then freed.value else c.prod.slot;
            var ss := JpegSteps(k, valid, freed);
            && CameraStream.Possible(c, ss)
            && Acts(c, ss) == JpegActs(k, FrameActs(valid, freed, c.prod.slot), next)
            && var c' := CameraStream.After(c, ss); c'.w.p == p && c'.prod == JpegEnd(k, next)
  {
    hide AcquireP, PublishP, Inv, Formed, CameraStream.Possible, Acts, CameraStream.After, Good, Exchange, FrameActs;
    CameraFormed(c);
    assert c.prod.slot in Owned(c.prod);
    if Finishes(k) {
      HardwareStep(c, Stop);
      var c1 := Do(c, Stop);
      FrameSteps(c1, k, valid);
      var freed := if valid.None? then None else Exchange(c.w.p, c.prod.slot, valid.value).1;
      var mid := if valid.None? then [] else if freed.None? then [Swap] else [Swap, PublishJpeg(valid.value)];
      var last := [if !k.stopThen && k.armed then Rearm else Teardown];
      StepFirst(c, Stop, mid + last);
      assert [Stop] + (mid + last) == [Stop] + mid + last;
      assert forall m: seq<Act>, a: Act :: [Halted] + (m + [a]) == [Halted] + m + [a];
    } else if k.stop || k.frame {
      HardwareStep(c, Teardown);
      NoSteps(Do(c, Teardown));
      StepFirst(c, Teardown, []);
      assert [Teardown] + [] == [Teardown] && [TornDown] + [] == [TornDown];
    } else {
      NoSteps(c);
    }
  }
}
