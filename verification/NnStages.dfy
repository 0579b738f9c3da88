/** The two staging buffers between the camera sink and the inference worker
    (port/nn/nn_camera.c): stage states under `nncam_lock`, and the unlocked writes of the
    preprocessing and reads of the worker's copy, interleaved element by element. */
module NnStages {
  import opened Machine

  datatype State = Free | Filling | Ready | Running

  /** What `nncam_lock` guards; @p epoch counts session changes, stored as a 32-bit word. */
  datatype Stages = Stages(st: seq<State>, epoch: nat, run: bool)

  /** The first stage in state @p x from @p k on, or the number of stages. */
  function First(st: seq<State>, x: State, k: nat): (i: nat)
    requires k <= |st|
    ensures k <= i <= |st| && (i < |st| ==> st[i] == x) && forall j :: k <= j < i ==> st[j] != x
    decreases |st| - k
  {
    if k == |st| || st[k] == x then k else First(st, x, k + 1)
  }

  /** Move the first stage in state @p x to state @p y. */
  function Claim(s: Stages, x: State, y: State): (c: (Stages, Option<nat>))
    ensures |c.0.st| == |s.st| && (c.1.Some? ==> c.1.value < |s.st|)
  {
    var i := First(s.st, x, 0);
    if i < |s.st| then (s.(st := s.st[i := y]), Some(i)) else (s, None)
  }

  /** The end of an ingest: the frame becomes ready unless its session is over. */
  function Publish(s: Stages, i: nat, epoch0: nat): Stages
    requires i < |s.st|
  {
    s.(st := s.st[i := if s.epoch % TWO32 != epoch0 % TWO32 || !s.run then Free else Ready])
  }

  function Freed(st: seq<State>, keep: set<State>): (r: seq<State>)
    ensures |r| == |st| && forall i :: 0 <= i < |st| ==> r[i] == if st[i] in keep then st[i] else Free
  {
    seq(|st|, i requires 0 <= i < |st| => if st[i] in keep then st[i] else Free)
  }

  /** (Re-)attach: everything but a stage being copied is dropped. */
  function Reset(s: Stages): Stages { Stages(Freed(s.st, {Running}), s.epoch + 1, s.run) }

  /** Detach: pending frames are dropped. */
  function Close(s: Stages): Stages { Stages(Freed(s.st, {Free, Filling, Running}), s.epoch + 1, s.run) }

  // ---- the producer, the worker and the sessions --------------------------------------

  type Image = seq<int>

  datatype Producer = PIdle | PFill(i: nat, epoch0: nat, image: Image, k: nat)

  datatype Worker = WIdle | WCopy(j: nat, k: nat)

  /** @p mem: the staging buffers; @p input: the model's input tensor; @p shown: the image
      and the session of the frame last made ready in each stage. */
  datatype World = World(s: Stages, mem: seq<Image>, p: Producer, w: Worker, input: Image,
                         shown: seq<(Image, nat)>)

  datatype Event =
    | Begins(image: Image)   // claim a stage for a frame
    | Writes                 // one element of the preprocessing
    | Ends                   // publish or revert
    | Takes                  // the worker claims a ready stage
    | Copies                 // one element of the worker's copy
    | Releases
    | Opens                  // session reset
    | Closes
    | Runs(on: bool)         // start or stop of the stream

  /** @p size is the model's input size; a 32-bit epoch cannot come round within one ingest. */
  predicate Enabled(w: World, e: Event, size: nat) {
    match e
    case Begins(image) => w.p.PIdle? && |image| == size
    case Writes => w.p.PFill? && w.p.k < size
    case Ends => w.p.PFill? && w.p.k == size && w.s.epoch < w.p.epoch0 + TWO32
    case Takes => w.w.WIdle?
    case Copies => w.w.WCopy? && w.w.k < size
    case Releases => w.w.WCopy? && w.w.k == size
    case _ => true
  }

  function Next(w: World, e: Event, size: nat): World
    requires Inv(w, size) && Enabled(w, e, size)
  {
    match e
    case Begins(image) =>
      var (s, i) := Claim(w.s, Free, Filling);
      if i.None? then w else w.(s := s, p := PFill(i.value, w.s.epoch, image, 0))
    case Writes =>
      w.(mem := w.mem[w.p.i := w.mem[w.p.i][w.p.k := w.p.image[w.p.k]]], p := w.p.(k := w.p.k + 1))
    case Ends =>
      var s := Publish(w.s, w.p.i, w.p.epoch0);
      w.(s := s, p := PIdle,
         shown := if s.st[w.p.i] == Ready then w.shown[w.p.i := (w.p.image, w.p.epoch0)] else w.shown)
    case Takes =>
      var (s, j) := Claim(w.s, Ready, Running);
      if j.None? then w else w.(s := s, w := WCopy(j.value, 0))
    case Copies => w.(input := w.input[w.w.k := w.mem[w.w.j][w.w.k]], w := w.w.(k := w.w.k + 1))
    case Releases => w.(s := w.s.(st := w.s.st[w.w.j := Free]), w := WIdle)
    case Opens => w.(s := Reset(w.s))
    case Closes => w.(s := Close(w.s))
    case Runs(on) => w.(s := w.s.(run := on))
  }

  // ---- the invariant --------------------------------------------------------------------

  predicate StageInv(w: World, x: nat, size: nat)
    requires x < |w.s.st| == |w.mem| == |w.shown|
  {
    && |w.mem[x]| == size
    && (w.s.st[x] == Filling ==> w.p.PFill? && w.p.i == x)
    && (w.s.st[x] == Ready ==> !(w.p.PFill? && w.p.i == x) && w.shown[x] == (w.mem[x], w.s.epoch))
    && (w.s.st[x] == Running <==> w.w.WCopy? && w.w.j == x)
    && (w.s.st[x] == Running ==> !(w.p.PFill? && w.p.i == x) && w.shown[x].0 == w.mem[x])
  }

  predicate Inv(w: World, size: nat) {
    && |w.s.st| == |w.mem| == |w.shown| == 2 && |w.input| == size
    && StageInv(w, 0, size) && StageInv(w, 1, size)
    && (w.p.PFill? ==>
          && w.p.i < 2 && |w.p.image| == size && w.p.k <= size && w.p.epoch0 <= w.s.epoch
          && w.mem[w.p.i][..w.p.k] == w.p.image[..w.p.k]
          && (w.s.st[w.p.i] == Filling || w.s.epoch > w.p.epoch0))
    && (w.w.WCopy? ==> w.w.j < 2 && w.w.k <= size && w.input[..w.w.k] == w.mem[w.w.j][..w.w.k])
  }

  lemma EpochMoved(e: nat, e0: nat)
    requires e0 <= e < e0 + TWO32
    ensures e % TWO32 == e0 % TWO32 <==> e == e0
  {
  }

  lemma StepKeeps(w: World, e: Event, size: nat)
    requires Inv(w, size) && Enabled(w, e, size)
    ensures Inv(Next(w, e, size), size)
  {
    match e
    case Ends => EndKeeps(w, size);
    case Writes => WriteKeeps(w, size);
    case Copies => CopyKeeps(w, size);
    case _ => ClaimKeeps(w, e, size);
  }

  lemma EndKeeps(w: World, size: nat)
    requires Inv(w, size) && Enabled(w, Ends, size)
    ensures Inv(Next(w, Ends, size), size)
  {
    EpochMoved(w.s.epoch, w.p.epoch0);
    assert w.mem[w.p.i][..size] == w.mem[w.p.i] && w.p.image[..size] == w.p.image;
  }

  lemma WriteKeeps(w: World, size: nat)
    requires Inv(w, size) && Enabled(w, Writes, size)
    ensures Inv(Next(w, Writes, size), size)
  {
    var i, k := w.p.i, w.p.k;
    var m := w.mem[i][k := w.p.image[k]];
    assert m[..k + 1] == w.mem[i][..k] + [w.p.image[k]] == w.p.image[..k + 1];
  }

  lemma CopyKeeps(w: World, size: nat)
    requires Inv(w, size) && Enabled(w, Copies, size)
    ensures Inv(Next(w, Copies, size), size)
  {
    var j, k := w.w.j, w.w.k;
    var x := w.input[k := w.mem[j][k]];
    assert x[..k + 1] == w.input[..k] + [w.mem[j][k]] == w.mem[j][..k + 1];
  }

  /** The lock sections that move no element. */
  lemma ClaimKeeps(w: World, e: Event, size: nat)
    requires Inv(w, size) && Enabled(w, e, size) && !e.Ends? && !e.Writes? && !e.Copies?
    ensures Inv(Next(w, e, size), size)
  {
  }

  // ---- what the steps do ------------------------------------------------------------------

  /** A frame finished in the session it was begun in, while the stream runs, becomes ready with its
      whole image in the stage; one that a new session, a detach or a stop overtook is dropped.
      Nothing happens to the other stage. */
  lemma FinishedFrame(w: World, size: nat)
    requires Inv(w, size) && Enabled(w, Ends, size)
    ensures var w', i := Next(w, Ends, size), w.p.i;
            && (w.s.run && w.s.epoch == w.p.epoch0 ==>
                  w'.s.st[i] == Ready && w'.mem[i] == w.p.image && w'.shown[i] == (w.p.image, w.s.epoch))
            && (!w.s.run || w.s.epoch != w.p.epoch0 ==> w'.s.st[i] == Free)
            && w'.p == PIdle && w'.s.st[1 - i] == w.s.st[1 - i] && w'.mem == w.mem && w'.s.epoch == w.s.epoch
  {
    EpochMoved(w.s.epoch, w.p.epoch0);
    assert w.mem[w.p.i][..size] == w.mem[w.p.i] && w.p.image[..size] == w.p.image;
  }

  /** A frame takes a free stage if there is one, for the session it comes in, and is dropped
      otherwise; the worker takes a ready stage if there is one. */
  lemma Claimed(w: World, image: Image, size: nat)
    requires Inv(w, size)
    ensures Enabled(w, Begins(image), size) ==>
              var w' := Next(w, Begins(image), size);
              if w.s.st[0] != Free && w.s.st[1] != Free then w' == w
              else
                && w'.p.PFill? && w'.p.i < 2 && w'.p == PFill(w'.p.i, w.s.epoch, image, 0)
                && w.s.st[w'.p.i] == Free && w'.s == w.s.(st := w.s.st[w'.p.i := Filling]) && w' == w.(s := w'.s, p := w'.p)
    ensures Enabled(w, Takes, size) ==>
              var w' := Next(w, Takes, size);
              if w.s.st[0] != Ready && w.s.st[1] != Ready then w' == w
              else
                && w'.w.WCopy? && w'.w.j < 2 && w'.w.k == 0
                && w.s.st[w'.w.j] == Ready && w'.s == w.s.(st := w.s.st[w'.w.j := Running]) && w' == w.(s := w'.s, w := w'.w)
  {
  }

  /** A new session drops what is ready or half filled, a detach what is ready; both move the epoch
      and leave a stage that is being copied alone. A release frees it. */
  lemma SessionEnds(w: World, x: nat, size: nat)
    requires Inv(w, size) && x < 2
    ensures var w' := Next(w, Opens, size);
            && w'.s.epoch == w.s.epoch + 1 && w'.s.run == w.s.run && w' == w.(s := w'.s)
            && w'.s.st[x] == if w.s.st[x] == Running then Running else Free
    ensures var w' := Next(w, Closes, size);
            && w'.s.epoch == w.s.epoch + 1 && w'.s.run == w.s.run && w' == w.(s := w'.s)
            && w'.s.st[x] == if w.s.st[x] == Ready then Free else w.s.st[x]
    ensures Enabled(w, Releases, size) ==>
              var w' := Next(w, Releases, size);
              w'.w == WIdle && w'.s.epoch == w.s.epoch && w'.s.st[x] == if x == w.w.j then Free else w.s.st[x]
  {
  }

  function Times(e: Event, n: nat): seq<Event> { if n == 0 then [] else [e] + Times(e, n - 1) }

  /** The preprocessing writes element after element. */
  lemma {:induction false} Fills(w: World, n: nat, size: nat)
    requires Inv(w, size) && w.p.PFill? && w.p.k + n <= size
    ensures Possible(w, Times(Writes, n), size)
    ensures var w' := After(w, Times(Writes, n), size); w' == w.(mem := w'.mem, p := w.p.(k := w.p.k + n))
    decreases n
  {
    hide Inv;
    if n == 0 {
    } else {
      assert Times(Writes, n)[1..] == Times(Writes, n - 1);
      StepKeeps(w, Writes, size);
      WriteStep(w, size);
      Fills(Next(w, Writes, size), n - 1, size);
    }
  }

  lemma WriteStep(w: World, size: nat)
    requires Inv(w, size) && Enabled(w, Writes, size)
    ensures var w' := Next(w, Writes, size); w' == w.(mem := w'.mem, p := w.p.(k := w.p.k + 1))
  {
  }

  /** The worker copies element after element. */
  lemma {:induction false} Copied(w: World, n: nat, size: nat)
    requires Inv(w, size) && w.w.WCopy? && w.w.k + n <= size
    ensures Possible(w, Times(Copies, n), size)
    ensures var w' := After(w, Times(Copies, n), size); w' == w.(input := w'.input, w := w.w.(k := w.w.k + n))
    decreases n
  {
    hide Inv;
    if n == 0 {
    } else {
      assert Times(Copies, n)[1..] == Times(Copies, n - 1);
      StepKeeps(w, Copies, size);
      CopyStep(w, size);
      Copied(Next(w, Copies, size), n - 1, size);
    }
  }

  lemma CopyStep(w: World, size: nat)
    requires Inv(w, size) && Enabled(w, Copies, size)
    ensures var w' := Next(w, Copies, size); w' == w.(input := w'.input, w := w.w.(k := w.w.k + 1))
  {
  }

  /** A frame that meets a free stage in a running stream reaches the model: once it is
      preprocessed, taken and copied, the input tensor is its image, and its stage is free. */
  lemma FrameReachesModel(w: World, image: Image, size: nat)
    requires Inv(w, size) && w.p.PIdle? && w.w.WIdle? && w.s.run && |image| == size
    requires Free in w.s.st && Ready !in w.s.st
    ensures Enabled(w, Begins(image), size) && var w1 := Next(w, Begins(image), size);
      && Inv(w1, size) && Possible(w1, Times(Writes, size), size) && var w2 := After(w1, Times(Writes, size), size);
      && Enabled(w2, Ends, size) && var w3 := Next(w2, Ends, size);
      && Inv(w3, size) && Enabled(w3, Takes, size) && var w4 := Next(w3, Takes, size);
      && Inv(w4, size) && Possible(w4, Times(Copies, size), size) && var w5 := After(w4, Times(Copies, size), size);
      && Enabled(w5, Releases, size) && var w6 := Next(w5, Releases, size);
      w1.p.PFill? && w1.p.i < |w6.s.st| && w6.input == image && w6.s.st[w1.p.i] == Free
  {
    hide Next, After, Possible, Inv, Times;
    FrameGetsReady(w, image, size);
    var w1 := Next(w, Begins(image), size);
    var w2 := After(w1, Times(Writes, size), size);
    ReadyIsCopied(Next(w2, Ends, size), w1.p.i, image, size);
  }

  lemma FrameGetsReady(w: World, image: Image, size: nat)
    requires Inv(w, size) && w.p.PIdle? && w.w.WIdle? && w.s.run && |image| == size
    requires Free in w.s.st && Ready !in w.s.st
    ensures Enabled(w, Begins(image), size) && var w1 := Next(w, Begins(image), size);
      && Inv(w1, size) && Possible(w1, Times(Writes, size), size) && var w2 := After(w1, Times(Writes, size), size);
      && Enabled(w2, Ends, size) && var w3 := Next(w2, Ends, size);
      && w1.p.PFill? && w1.p.i < 2 && ReadyAlone(w3, w1.p.i, image, size)
  {
    hide Next, After, Possible, StageInv, Times;
    Claimed(w, image, size);
    StepKeeps(w, Begins(image), size);
    var w1 := Next(w, Begins(image), size);
    Fills(w1, size, size);
    var w2 := After(w1, Times(Writes, size), size);
    FinishedFrame(w2, size);
    StepKeeps(w2, Ends, size);
    EndsShape(w2, size);
  }

  /** Stage @p i is the one that is ready, with this image in it, and the worker is idle. */
  predicate ReadyAlone(w: World, i: nat, image: Image, size: nat) {
    Inv(w, size) && w.w.WIdle? && i < 2 && w.s.st[i] == Ready && w.s.st[1 - i] != Ready && w.mem[i] == image
  }

  lemma ReadyIsCopied(w: World, i: nat, image: Image, size: nat)
    requires ReadyAlone(w, i, image, size)
    ensures Enabled(w, Takes, size) && var w4 := Next(w, Takes, size);
      && Inv(w4, size) && Possible(w4, Times(Copies, size), size) && var w5 := After(w4, Times(Copies, size), size);
      && Enabled(w5, Releases, size) && var w6 := Next(w5, Releases, size);
      |w6.s.st| == 2 && w6.input == image && w6.s.st[i] == Free
  {
    hide Next, After, Possible, StageInv, Times;
    Claimed(w, image, size);
    StepKeeps(w, Takes, size);
    var w4 := Next(w, Takes, size);
    Copied(w4, size, size);
    var w5 := After(w4, Times(Copies, size), size);
    WholeCopy(w5, size);
    SessionEnds(w5, w5.w.j, size);
    ReleaseShape(w5, size);
  }

  lemma WholeCopy(w: World, size: nat)
    requires Inv(w, size) && w.w.WCopy? && w.w.k == size
    ensures w.input == w.mem[w.w.j]
  {
    assert w.input[..size] == w.input && w.mem[w.w.j][..size] == w.mem[w.w.j];
  }

  lemma EndsShape(w: World, size: nat)
    requires Inv(w, size) && Enabled(w, Ends, size)
    ensures Next(w, Ends, size).w == w.w
  {
  }

  lemma ReleaseShape(w: World, size: nat)
    requires Inv(w, size) && Enabled(w, Releases, size)
    ensures Next(w, Releases, size).input == w.input && |Next(w, Releases, size).s.st| == 2
  {
  }

  /** The events can happen in this order. */
  ghost predicate Possible(w: World, es: seq<Event>, size: nat)
    requires Inv(w, size)
    decreases |es|
  {
    es == [] || (Enabled(w, es[0], size) && (StepKeeps(w, es[0], size); Possible(Next(w, es[0], size), es[1..], size)))
  }

  /** Every run keeps the invariant. */
  ghost function After(w: World, es: seq<Event>, size: nat): (w': World)
    requires Inv(w, size) && Possible(w, es, size)
    ensures Inv(w', size)
    decreases |es|
  {
    if es == [] then w else StepKeeps(w, es[0], size); After(Next(w, es[0], size), es[1..], size)
  }

  /** Both stages free, nothing under way. */
  function Fresh(mem: seq<Image>, input: Image): (w: World)
    requires |mem| == 2 && |mem[0]| == |mem[1]| == |input|
    ensures Inv(w, |input|)
  {
    World(Stages([Free, Free], 0, false), mem, PIdle, WIdle, input, [([], 0), ([], 0)])
  }

  /** The stage the producer writes is never the one the worker reads, nor a ready one; a
      ready stage holds the whole image of a frame of the current session. */
  predicate Exclusive(w: World)
    requires |w.s.st| == |w.mem| == |w.shown| == 2
  {
    && !(w.p.PFill? && w.w.WCopy? && w.p.i == w.w.j)
    && (w.p.PFill? ==> w.p.i < 2 && w.s.st[w.p.i] !in {Ready, Running})
    && (forall x :: 0 <= x < 2 && w.s.st[x] == Ready ==> w.shown[x] == (w.mem[x], w.s.epoch))
  }

  /** After every run, from `Fresh` or from any state in order. */
  lemma AlwaysExclusive(w: World, es: seq<Event>, size: nat)
    requires Inv(w, size) && Possible(w, es, size)
    ensures Exclusive(After(w, es, size))
  {
    hide Inv;
    InvExcludes(After(w, es, size), size);
  }

  lemma InvExcludes(w: World, size: nat)
    requires Inv(w, size)
    ensures Exclusive(w)
  {
  }

  /** When the worker releases a stage, the model input is, element for element, the whole
      image of one frame that was made ready. */
  lemma CopiesWholeFrames(w: World, es: seq<Event>, size: nat)
    requires Inv(w, size) && Possible(w, es, size) && Enabled(After(w, es, size), Releases, size)
    ensures var w' := After(w, es, size); w'.w.j < |w'.shown| && w'.input == w'.shown[w'.w.j].0
  {
    var w' := After(w, es, size);
    assert w'.input[..size] == w'.input && w'.mem[w'.w.j][..size] == w'.mem[w'.w.j];
  }
}
