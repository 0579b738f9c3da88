/** The camera producer on top of the frame ring (port/camera/camera.c): the DMA engine
    writes into the slots its registers point at, while the producer thread takes a free
    slot, repoints a register and publishes the completed frame, sinks and readers
    interleave freely, and streams are torn down and started anew on a fresh ring. */
module CameraStream {
  import opened Machine
  import opened FramePipeline
  import opened FrameWorld

  /** Where the producer thread is between its atomic steps. */
  datatype RasterPc =
    | Filling                               // both buffers belong to the DMA
    | Secured(second: bool, freed: nat)     // a free slot in hand, register not yet repointed
    | Repointed(done: nat)                  // the completed frame is off the registers

  datatype JpegPc =
    | Capturing                             // the DMA is armed into the current slot
    | Stopped                               // DCMI stopped, frame complete
    | Swapped(freed: nat)                   // a free slot in hand
    | Published(freed: nat)                 // the frame is out

  /** @p left: slots taken for a stream that is over; they stay taken until the ring is built
      afresh. */
  datatype Producer =
    | Idle(left: set<nat>)
    | Raster(m0: nat, m1: nat, rpc: RasterPc)
    | Jpeg(slot: nat, jpc: JpegPc)

  /** @p pixels stands for the memory of each slot. */
  datatype Camera = Camera(w: World, prod: Producer, pixels: seq<nat>)

  /** The slots the DMA may write into right now. */
  function Targets(p: Producer): set<nat> {
    match p
    case Idle(_) => {}
    case Raster(m0, m1, _) => {m0, m1}
    case Jpeg(slot, pc) => if pc.Capturing? then {slot} else {}
  }

  /** The slots the producer owns: its DMA targets and what it has in hand. */
  function Owned(p: Producer): set<nat> {
    match p
    case Idle(left) => left
    case Raster(m0, m1, Filling) => {m0, m1}
    case Raster(m0, m1, Secured(_, freed)) => {m0, m1, freed}
    case Raster(m0, m1, Repointed(done)) => {m0, m1, done}
    case Jpeg(slot, Swapped(freed)) => {slot, freed}
    case Jpeg(slot, Published(freed)) => {freed}
    case Jpeg(slot, _) => {slot}
  }

  /** No two of the producer's slots coincide. */
  predicate Apart(p: Producer) {
    match p
    case Idle(_) => true
    case Raster(m0, m1, Filling) => m0 != m1
    case Raster(m0, m1, Secured(_, freed)) => m0 != m1 && freed != m0 && freed != m1
    case Raster(m0, m1, Repointed(done)) => m0 != m1 && done != m0 && done != m1
    case Jpeg(slot, Swapped(freed)) => slot != freed
    case Jpeg(_, _) => true
  }

  /** The slots being filled are exactly the producer's. */
  ghost predicate Good(c: Camera) {
    && Inv(c.w) && |c.pixels| == |c.w.p.slots| && Apart(c.prod)
    && (forall i <- Owned(c.prod) :: i < |c.pixels|)
    && (forall i :: 0 <= i < |c.w.p.slots| ==> (c.w.p.slots[i].filling <==> i in Owned(c.prod)))
  }

  datatype Step =
    | Sinks(e: Event)                       // a sink or a reader moves
    | Dma(target: nat, pixel: nat)          // the DMA writes somewhere it points
    | Secure(second: bool)                  // raster: CT flipped, take a free slot
    | Repoint                               // raster: point the completed register at it
    | PublishRaster(bytes: u32)
    | Stop                                  // JPEG: end of frame, stop the DCMI
    | Swap                                  // JPEG: take a free slot
    | PublishJpeg(bytes: u32)
    | Rearm                                 // JPEG: arm into the current slot
    | Teardown                              // the DCMI and the DMA stop for good
    | Init(pixels: seq<nat>)                // the ring is built afresh over the arena
    | ArmRaster                             // take two slots and start the DMA
    | ArmJpeg                               // take a slot and arm the first snapshot

  ghost predicate Can(c: Camera, s: Step)
    requires Good(c)
  {
    match s
    case Sinks(e) => !e.Acquire? && !e.Publish? && Enabled(c.w, e)
    case Dma(target, _) => target in Targets(c.prod)
    case Secure(_) => c.prod.Raster? && c.prod.rpc.Filling?
    case Repoint => c.prod.Raster? && c.prod.rpc.Secured?
    case PublishRaster(_) => c.prod.Raster? && c.prod.rpc.Repointed?
    case Stop => c.prod.Jpeg? && c.prod.jpc.Capturing?
    case Swap => c.prod.Jpeg? && c.prod.jpc.Stopped?
    case PublishJpeg(_) => c.prod.Jpeg? && c.prod.jpc.Swapped?
    case Rearm => c.prod.Jpeg? && (c.prod.jpc.Stopped? || c.prod.jpc.Published?)
    case Teardown => (c.prod.Raster? && c.prod.rpc.Filling?) || (c.prod.Jpeg? && !c.prod.jpc.Swapped?)
    // Nothing is linked once a stream is torn down, and readers pin a frame only under the
    // lock that a start holds.
    case Init(pixels) => c.prod.Idle? && c.w.tokens == [] && c.w.p.list == [] && 2 <= |pixels| <= MAX_SLOTS
    case ArmRaster => c.prod == Idle({})
    case ArmJpeg => c.prod == Idle({})
  }

  ghost function Do(c: Camera, s: Step): Camera
    requires Good(c) && Can(c, s)
  {
    match s
    case Sinks(e) => c.(w := Next(c.w, e))
    case Dma(target, pixel) =>
      assert target in Owned(c.prod);
      c.(pixels := c.pixels[target := pixel])
    case Secure(second) =>
      // No free slot: the frame is dropped and its register keeps pointing at it.
      var free := AcquireP(c.w.p).1;
      Camera(Next(c.w, Acquire), if free.Some? then c.prod.(rpc := Secured(second, free.value)) else c.prod, c.pixels)
    case Repoint =>
      var Secured(second, freed) := c.prod.rpc;
      c.(prod := if second then Raster(c.prod.m0, freed, Repointed(c.prod.m1))
                 else Raster(freed, c.prod.m1, Repointed(c.prod.m0)))
    case PublishRaster(bytes) =>
      assert c.prod.rpc.done in Owned(c.prod);
      Camera(Next(c.w, Publish(c.prod.rpc.done, bytes)), c.prod.(rpc := Filling), c.pixels)
    case Stop => c.(prod := c.prod.(jpc := Stopped))
    case Swap =>
      // No free slot: the frame is dropped and the slot reused.
      var free := AcquireP(c.w.p).1;
      Camera(Next(c.w, Acquire), if free.Some? then c.prod.(jpc := Swapped(free.value)) else c.prod, c.pixels)
    case PublishJpeg(bytes) =>
      assert c.prod.slot in Owned(c.prod);
      Camera(Next(c.w, Publish(c.prod.slot, bytes)), c.prod.(jpc := Published(c.prod.jpc.freed)), c.pixels)
    case Rearm =>
      c.(prod := Jpeg(if c.prod.jpc.Published? then c.prod.jpc.freed else c.prod.slot, Capturing))
    case Teardown => c.(prod := Idle(Owned(c.prod)))
    case Init(pixels) => Camera(Fresh(|pixels|), Idle({}), pixels)
    case ArmRaster =>
      EventKeeps(c.w, Acquire);
      var w1 := Next(c.w, Acquire);
      c.(w := Next(w1, Acquire), prod := RasterArmed(AcquireP(c.w.p).1, AcquireP(w1.p).1))
    case ArmJpeg =>
      var free := AcquireP(c.w.p).1;
      c.(w := Next(c.w, Acquire), prod := if free.Some? then Jpeg(free.value, Capturing) else c.prod)
  }

  /** The stream starts only with both slots; a slot taken for one that does not start stays
      taken. */
  function RasterArmed(first: Option<nat>, second: Option<nat>): Producer {
    if first.Some? && second.Some? then Raster(first.value, second.value, Filling)
    else Idle((if first.Some? then {first.value} else {}) + if second.Some? then {second.value} else {})
  }

  lemma StepKeeps(c: Camera, s: Step)
    requires Good(c) && Can(c, s)
    ensures Good(Do(c, s))
  {
    hide Inv, Enabled, Next, AcquireP;
    match s
    case Sinks(e) =>
      EventKeeps(c.w, e);
      FillingChanges(c.w, e);
    case Secure(_) => AcquireApart(c);
    case Swap => AcquireApart(c);
    case PublishRaster(bytes) => PublishOwned(c, c.prod.rpc.done, bytes);
    case PublishJpeg(bytes) => PublishOwned(c, c.prod.slot, bytes);
    case Dma(target, _) => assert target in Owned(c.prod);
    case Repoint => assert Owned(Do(c, s).prod) == Owned(c.prod);
    case Stop => assert Owned(Do(c, s).prod) == Owned(c.prod);
    case Rearm => assert Owned(Do(c, s).prod) == Owned(c.prod);
    case Teardown =>
    case Init(pixels) => InitKeeps(pixels);
    case ArmRaster => ArmRasterKeeps(c);
    case ArmJpeg => AcquireApart(c);
  }

  lemma InitKeeps(pixels: seq<nat>)
    ensures Good(Camera(Fresh(|pixels|), Idle({}), pixels))
  {
    FreshInv(|pixels|);
  }

  lemma ArmRasterKeeps(c: Camera)
    requires Good(c) && Can(c, ArmRaster)
    ensures Good(Do(c, ArmRaster))
  {
    hide Inv, Enabled, Next, AcquireP;
    AcquireApart(c);
    var first := AcquireP(c.w.p).1;
    var c1 := c.(w := Next(c.w, Acquire), prod := Idle(if first.Some? then {first.value} else {}));
    AcquireApart(c1);
  }

  lemma AcquireApart(c: Camera)
    requires Good(c)
    ensures Enabled(c.w, Acquire) && Inv(Next(c.w, Acquire))
    ensures var free, w' := AcquireP(c.w.p).1, Next(c.w, Acquire);
            && (free.Some? ==> free.value < |c.pixels| && free.value !in Owned(c.prod))
            && |w'.p.slots| == |c.w.p.slots|
            && (forall i :: 0 <= i < |w'.p.slots| ==> (w'.p.slots[i].filling <==> i in Owned(c.prod) || free == Some(i)))
  {
    EventKeeps(c.w, Acquire);
    FillingChanges(c.w, Acquire);
  }

  lemma PublishOwned(c: Camera, f: nat, bytes: u32)
    requires Good(c) && f in Owned(c.prod)
    ensures Enabled(c.w, Publish(f, bytes)) && Inv(Next(c.w, Publish(f, bytes)))
    ensures var w' := Next(c.w, Publish(f, bytes));
            && |w'.p.slots| == |c.w.p.slots|
            && (forall i :: 0 <= i < |w'.p.slots| ==> (w'.p.slots[i].filling <==> i in Owned(c.prod) && i != f))
  {
    EventKeeps(c.w, Publish(f, bytes));
    FillingChanges(c.w, Publish(f, bytes));
  }

  /** Someone may be looking at slot @p i: it is pinned, or the latest published frame. */
  predicate Watched(c: Camera, i: nat)
    requires i < |c.w.p.slots|
  {
    c.w.p.slots[i].refcount > 0 || i == c.w.p.latest
  }

  /** A watched slot is no DMA target, and no step changes its pixels or its description, but
      for building the ring afresh, which needs that nothing is pinned. */
  lemma WatchedStays(c: Camera, s: Step, i: nat)
    requires Good(c) && Can(c, s) && i < |c.w.p.slots| && Watched(c, i) && !s.Init?
    ensures i !in Owned(c.prod) && i !in Targets(c.prod)
    ensures var c' := Do(c, s);
            && |c'.pixels| == |c.pixels| == |c'.w.p.slots| && c'.pixels[i] == c.pixels[i]
            && c'.w.p.slots[i].(refcount := 0) == c.w.p.slots[i].(refcount := 0)
  {
    hide Conserved, Accounts, Next, AcquireP;
    StepKeeps(c, s);
    match s
    case Sinks(e) => PinnedStays(c.w, e, i);
    case Secure(_) => PinnedStays(c.w, Acquire, i);
    case Swap => PinnedStays(c.w, Acquire, i);
    case PublishRaster(bytes) => PinnedStays(c.w, Publish(c.prod.rpc.done, bytes), i);
    case PublishJpeg(bytes) => PinnedStays(c.w, Publish(c.prod.slot, bytes), i);
    case ArmRaster =>
      PinnedStays(c.w, Acquire, i);
      EventKeeps(c.w, Acquire);
      LatestStays(c.w, i);
      PinnedStays(Next(c.w, Acquire), Acquire, i);
    case ArmJpeg => PinnedStays(c.w, Acquire, i);
    case _ =>
  }

  lemma LatestStays(w: World, i: nat)
    requires Inv(w) && i < |w.p.slots| && (w.p.slots[i].refcount > 0 || i == w.p.latest)
    ensures var p := Next(w, Acquire).p; i < |p.slots| && (p.slots[i].refcount > 0 || i == p.latest)
  {
    hide Conserved, Accounts, Given;
  }

  ghost predicate WatchedNow(c: Camera, i: nat) { i < |c.w.p.slots| && Watched(c, i) }

  /** While anything is pinned the ring is not built afresh, and afterwards nothing is watched:
      a slot watched before and after every step has lived on one ring. */
  lemma InitUnwatches(c: Camera, pixels: seq<nat>, i: nat)
    requires Good(c) && Can(c, Init(pixels))
    ensures i < |c.w.p.slots| ==> c.w.p.slots[i].refcount == 0
    ensures !WatchedNow(Do(c, Init(pixels)), i)
  {
  }

  // ---- runs ------------------------------------------------------------------

  ghost predicate Possible(c: Camera, ss: seq<Step>)
    requires Good(c)
    decreases |ss|
  {
    ss == [] || (Can(c, ss[0]) && (StepKeeps(c, ss[0]); Possible(Do(c, ss[0]), ss[1..])))
  }

  ghost function After(c: Camera, ss: seq<Step>): (c': Camera)
    requires Good(c) && Possible(c, ss)
    ensures Good(c')
    decreases |ss|
  {
    if ss == [] then c else StepKeeps(c, ss[0]); After(Do(c, ss[0]), ss[1..])
  }

  /** Slot @p i is watched before every step of the run, and after those that build the ring
      afresh. */
  ghost predicate WatchedThroughout(c: Camera, ss: seq<Step>, i: nat)
    requires Good(c) && Possible(c, ss)
    decreases |ss|
  {
    || ss == []
    || (&& WatchedNow(c, i)
        && (StepKeeps(c, ss[0]);
            && (ss[0].Init? ==> WatchedNow(Do(c, ss[0]), i))
            && WatchedThroughout(Do(c, ss[0]), ss[1..], i)))
  }

  /** Tear-freedom: from the moment a frame is pinned (or is the latest) for as long as it
      stays so, its pixels, generation and length do not change, whatever the producer, the
      DMA, the sinks and the readers do meanwhile, teardown and restart included. */
  lemma {:induction false} NoTearing(c: Camera, ss: seq<Step>, i: nat)
    requires Good(c) && Possible(c, ss) && i < |c.w.p.slots| && WatchedThroughout(c, ss, i)
    ensures var c' := After(c, ss);
            && |c'.pixels| == |c.pixels| == |c'.w.p.slots| && c'.pixels[i] == c.pixels[i]
            && c'.w.p.slots[i].(refcount := 0) == c.w.p.slots[i].(refcount := 0)
    decreases |ss|
  {
    hide Watched, Can, Do;
    if ss == [] {
    } else {
      StepKeeps(c, ss[0]);
      if ss[0].Init? { InitUnwatches(c, ss[0].pixels, i); }
      WatchedStays(c, ss[0], i);
      NoTearing(Do(c, ss[0]), ss[1..], i);
    }
  }

  /** Starting a raster stream on a fresh ring: the registers get two different slots, and
      everything is in order. */
  lemma RasterStart(pixels: seq<nat>)
    requires 2 <= |pixels|
    ensures var c := Camera(Fresh(|pixels|), Idle({}), pixels);
            Good(c) && Good(Do(c, ArmRaster)) && Do(c, ArmRaster).prod == Raster(0, 1, Filling)
  {
    InitKeeps(pixels);
    var c := Camera(Fresh(|pixels|), Idle({}), pixels);
    StepKeeps(c, ArmRaster);
    EventKeeps(c.w, Acquire);
    var w1 := Next(c.w, Acquire);
    assert FirstFree(w1.p, 0) == FirstFree(w1.p, 1);
  }

  lemma JpegStart(pixels: seq<nat>)
    requires 2 <= |pixels|
    ensures var c := Camera(Fresh(|pixels|), Idle({}), pixels);
            Good(c) && Good(Do(c, ArmJpeg)) && Do(c, ArmJpeg).prod == Jpeg(0, Capturing)
  {
    InitKeeps(pixels);
    StepKeeps(Camera(Fresh(|pixels|), Idle({}), pixels), ArmJpeg);
  }
}
