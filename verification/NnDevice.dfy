/** The staging code of nn_camera.c in place: the critical sections over the stage-state
    array, and the preprocessing loop that fills a staging buffer. */
module NnDevice {
  import opened Machine
  import N = NnStages

  const STAGES := 2

  class Staging {
    const state: array<N.State>
    var epoch: u32
    var run: bool
    var dead: bool
    var boxes: nat
    /** How often the epoch has moved. */
    ghost var moves: nat

    ghost predicate Valid()
      reads this
    {
      state.Length == STAGES && epoch == moves % TWO32
    }

    ghost function Abs(): (s: N.Stages)
      requires Valid()
      reads this, state
    {
      N.Stages(state[..], moves, run)
    }

    constructor ()
      ensures Valid() && fresh(state) && Abs() == N.Stages([N.Free, N.Free], 0, false)
    {
      state := new N.State[STAGES](_ => N.Free);
      epoch, run, dead, boxes, moves := 0, false, false, 0, 0;
      new;
      assert state[..] == [N.Free, N.Free];
    }

    /** The claim of `nncam_ingest` (FREE to FILLING) and of `nncam_step` (READY to RUNNING). */
    method Claim(x: N.State, y: N.State) returns (i: Option<nat>)
      requires Valid()
      modifies state
      ensures Valid() && (Abs(), i) == N.Claim(old(Abs()), x, y)
      ensures i.Some? ==> i.value < STAGES && old(state[i.value]) == x && state[i.value] == y
      ensures i.None? ==> forall j :: 0 <= j < STAGES ==> old(state[j]) != x
      ensures forall j :: 0 <= j < STAGES && i != Some(j) ==> state[j] == old(state[j])
    {
      var k := 0;
      while k < STAGES
        invariant k <= STAGES && state[..] == old(state[..]) && N.First(state[..], x, 0) == N.First(state[..], x, k)
        invariant forall j :: 0 <= j < STAGES ==> state[j] == old(state[j]) && (j < k ==> state[j] != x)
      {
        if state[k] == x {
          state[k] := y;
          return Some(k);
        }
        k := k + 1;
      }
      i := None;
    }

    /** The second critical section of `nncam_ingest`; @p latched, the epoch of the claim. */
    method Finish(i: nat, latched: u32, ghost claimed: nat) returns (published: bool)
      requires Valid() && i < STAGES && latched == claimed % TWO32
      modifies state
      ensures Valid() && Abs() == N.Publish(old(Abs()), i, claimed)
      ensures published <==> epoch == latched && run
      ensures state[i] == if published then N.Ready else N.Free
      ensures forall j :: 0 <= j < STAGES && j != i ==> state[j] == old(state[j])
    {
      if epoch != latched || !run {
        state[i] := N.Free;
        return false;
      }
      state[i] := N.Ready;
      published := true;
    }

    method Release(j: nat)
      requires Valid() && j < STAGES
      modifies state
      ensures Valid() && Abs() == old(Abs()).(st := old(state[..])[j := N.Free])
    {
      state[j] := N.Free;
    }

    method BumpEpoch()
      requires Valid()
      modifies `epoch, `moves
      ensures Valid() && moves == old(moves) + 1 && epoch == Add32(old(epoch), 1)
    {
      WordOffsets(moves, 1);
      epoch, moves := Add32(epoch, 1), moves + 1;
    }

    /** `nncam_session_reset`. */
    method SessionReset()
      requires Valid()
      modifies this, state
      ensures Valid() && Abs() == N.Reset(old(Abs())) && !dead && boxes == 0
      ensures epoch == Add32(old(epoch), 1) && run == old(run)
      ensures forall j :: 0 <= j < STAGES ==> state[j] == if old(state[j]) == N.Running then N.Running else N.Free
    {
      dead, boxes := false, 0;
      var i := 0;
      while i < STAGES
        invariant i <= STAGES && Valid() && moves == old(moves) && epoch == old(epoch) && run == old(run) && !dead && boxes == 0
        invariant forall j :: 0 <= j < STAGES ==>
                    state[j] == if j < i && old(state[j]) != N.Running then N.Free else old(state[j])
      {
        if state[i] != N.Running { state[i] := N.Free; }
        i := i + 1;
      }
      BumpEpoch();
    }

    /** `nncam_close`. */
    method Close()
      requires Valid()
      modifies this, state
      ensures Valid() && Abs() == N.Close(old(Abs())) && dead && boxes == 0
      ensures epoch == Add32(old(epoch), 1) && run == old(run)
      ensures forall j :: 0 <= j < STAGES ==> state[j] == if old(state[j]) == N.Ready then N.Free else old(state[j])
    {
      dead := true;
      BumpEpoch();
      var i := 0;
      while i < STAGES
        invariant i <= STAGES && Valid() && moves == old(moves) + 1 && epoch == Add32(old(epoch), 1) && run == old(run) && dead
        invariant forall j :: 0 <= j < STAGES ==>
                    state[j] == if j < i && old(state[j]) == N.Ready then N.Free else old(state[j])
      {
        if state[i] == N.Ready { state[i] := N.Free; }
        i := i + 1;
      }
      boxes := 0;
    }
  }

  // ---- preprocessing -------------------------------------------------------------------

  /** An RGB565 frame; a stride of 0 means packed rows. */
  datatype Frame = Frame(data: seq<byte>, width: nat, height: nat, stride: nat)

  function RowBytes(f: Frame): nat { if f.stride != 0 then f.stride else f.width * 2 }

  predicate Holds(f: Frame) {
    0 < f.width && 0 < f.height && f.width * 2 <= RowBytes(f) && f.height * RowBytes(f) <= |f.data|
  }

  /** The model's input: size, channels and element type. */
  datatype Shape = Shape(w: nat, h: nat, c: nat, float: bool, signed: bool)

  predicate Fits(m: Shape) { 0 < m.w <= 128 && 0 < m.h <= 128 && 0 < m.c <= 3 }

  /** Channel @p c of an RGB565 pixel, scaled to 0..255. */
  function Channel(px: nat, c: nat): nat {
    if c == 0 then (px / 2048) % 32 * 255 / 31
    else if c == 1 then (px / 32) % 64 * 255 / 63
    else px % 32 * 255 / 31
  }

  /** RGB565, low byte first: red is the top five bits of the high byte, green its lower three and
      the top three of the low byte, blue the lower five. */
  lemma ChannelBits(lo: nat, hi: nat)
    requires lo < 256 && hi < 256
    ensures Channel(lo + 256 * hi, 0) == hi / 8 * 255 / 31
    ensures Channel(lo + 256 * hi, 1) == (hi % 8 * 8 + lo / 32) * 255 / 63
    ensures Channel(lo + 256 * hi, 2) == lo % 32 * 255 / 31
  {
    hide Channel;
    ChannelParts(lo + 256 * hi);
    Fields(lo, hi);
  }

  lemma ChannelParts(px: nat)
    ensures Channel(px, 0) == (px / 2048) % 32 * 255 / 31
    ensures Channel(px, 1) == (px / 32) % 64 * 255 / 63
    ensures Channel(px, 2) == px % 32 * 255 / 31
  {
  }

  lemma Fields(lo: nat, hi: nat)
    requires lo < 256 && hi < 256
    ensures var px := lo + 256 * hi;
            px / 2048 % 32 == hi / 8 && px / 32 % 64 == hi % 8 * 8 + lo / 32 && px % 32 == lo % 32
  {
    var px, q, r := lo + 256 * hi, hi / 8, hi % 8;
    ModUnique(px, 2048, q, 256 * r + lo);
    ModUnique(px, 32, 8 * hi + lo / 32, lo % 32);
    ModUnique(8 * hi + lo / 32, 64, q, 8 * r + lo / 32);
  }

  function Encode(v: nat, m: Shape): real {
    if !m.float then (v - 128) as real
    else if m.signed then v as real / 127.5 - 1.0
    else v as real / 255.0
  }

  lemma SampleInside(o: nat, n: nat, s: nat)
    requires o < n && s > 0
    ensures o * s / n < s
  {
    var q := o * s / n;
    assert o * s == n * q + o * s % n;
    assert n * (s - q) == (n - o) * s + o * s % n > 0;
  }

  lemma PixelInside(f: Frame, sx: nat, sy: nat)
    requires Holds(f) && sx < f.width && sy < f.height
    ensures 0 <= sy * RowBytes(f) + sx * 2 && sy * RowBytes(f) + sx * 2 + 1 < |f.data|
  {
    Rows(RowBytes(f), sy, f.height);
  }

  lemma Rows(r: nat, y: nat, h: nat)
    requires y < h
    ensures 0 <= y * r && y * r + r <= h * r
  {
    var d := h - 1 - y;
    Distribute(d, y, r);
    assert d * r >= 0 && d + y + 1 == h;
  }

  lemma Distribute(a: nat, b: nat, r: nat)
    ensures (a + b + 1) * r == a * r + b * r + r
  {
  }

  /** The source coordinate that output coordinate @p o of @p n samples. */
  function Nearest(o: nat, n: nat, s: nat): (x: nat)
    requires o < n && s > 0
    ensures x < s
  {
    SampleInside(o, n, s);
    o * s / n
  }

  function Pixel(f: Frame, sx: nat, sy: nat): nat
    requires Holds(f) && sx < f.width && sy < f.height
  {
    PixelInside(f, sx, sy);
    var at := sy * RowBytes(f) + sx * 2;
    f.data[at] as nat + 256 * f.data[at + 1] as nat
  }

  /** The pixel the nearest-neighbour resize reads for output pixel (ox, oy). */
  function PixelAt(f: Frame, m: Shape, ox: nat, oy: nat): nat
    requires Holds(f) && Fits(m) && ox < m.w && oy < m.h
  {
    Pixel(f, Nearest(ox, m.w, f.width), Nearest(oy, m.h, f.height))
  }

  /** The output pixel, row by row, that index @p o of the tensor belongs to. */
  function PixelOf(m: Shape, o: nat): (p: nat)
    requires Fits(m) && o < m.h * m.w * m.c
    ensures p < m.h * m.w
  {
    Below(o, m.c, m.h * m.w);
    o / m.c
  }

  function RowOf(m: Shape, p: nat): (y: nat)
    requires Fits(m) && p < m.h * m.w
    ensures y < m.h
  {
    Below(p, m.w, m.h);
    p / m.w
  }

  /** The element stored at index @p o of the input tensor. */
  function Target(f: Frame, m: Shape, o: nat): real
    requires Holds(f) && Fits(m) && o < m.h * m.w * m.c
  {
    var p := PixelOf(m, o);
    Encode(Channel(PixelAt(f, m, p % m.w, RowOf(m, p)), o % m.c), m)
  }

  lemma Below(v: nat, b: nat, p: nat)
    requires b > 0 && v < p * b
    ensures 0 <= v / b < p
  {
    assert v == b * (v / b) + v % b;
    assert b * (p - v / b) == p * b - b * (v / b) > 0;
  }

  /** Digit @p lo of base @p b and what is above it. */
  lemma Digits(hi: nat, b: nat, lo: nat, n: nat)
    requires lo < b && hi < n
    ensures 0 <= hi * b && hi * b + lo < n * b && (hi * b + lo) / b == hi && (hi * b + lo) % b == lo
  {
    ModUnique(hi * b + lo, b, hi, lo);
    Rows(b, hi, n);
  }

  lemma TargetIs(f: Frame, m: Shape, ox: nat, oy: nat, c: nat)
    requires Holds(f) && Fits(m) && ox < m.w && oy < m.h && c < m.c
    ensures var p := oy * m.w + ox; 0 <= p && 0 <= p * m.c && p * m.c + c < m.h * m.w * m.c
    ensures Target(f, m, (oy * m.w + ox) * m.c + c) == Encode(Channel(PixelAt(f, m, ox, oy), c), m)
  {
    hide PixelAt, Encode, Channel, Holds;
    Digits(oy, m.w, ox, m.h);
    Digits(oy * m.w + ox, m.c, c, m.h * m.w);
  }

  /** What the tensor holds: pixel (ox, oy) is the frame's pixel at (ox * width / w, oy * height / h),
      and its channels go from 0..255 to -128..127, to [-1, 1] or to [0, 1]. */
  lemma TensorElement(f: Frame, m: Shape, ox: nat, oy: nat, c: nat, sx: nat, sy: nat)
    requires Holds(f) && Fits(m) && ox < m.w && oy < m.h && c < m.c
    requires sx == ox * f.width / m.w && sy == oy * f.height / m.h
    ensures var o, at := (oy * m.w + ox) * m.c + c, sy * RowBytes(f) + sx * 2;
            && 0 <= o < m.h * m.w * m.c && 0 <= at && at + 1 < |f.data|
            && var lo, hi := f.data[at] as nat, f.data[at + 1] as nat;
               var v := if c == 0 then hi / 8 * 255 / 31 else if c == 1 then (hi % 8 * 8 + lo / 32) * 255 / 63 else lo % 32 * 255 / 31;
               Target(f, m, o) == if !m.float then (v - 128) as real
                                  else if m.signed then v as real / 127.5 - 1.0 else v as real / 255.0
  {
    hide Target, Channel, RowBytes;
    TargetIs(f, m, ox, oy, c);
    OffsetIs(m, ox, oy, c);
    assert sx == Nearest(ox, m.w, f.width) && sy == Nearest(oy, m.h, f.height);
    PixelInside(f, sx, sy);
    var at := sy * RowBytes(f) + sx * 2;
    ChannelBits(f.data[at] as nat, f.data[at + 1] as nat);
  }

  lemma OffsetIs(m: Shape, ox: nat, oy: nat, c: nat)
    requires Fits(m) && ox < m.w && oy < m.h && c < m.c
    ensures 0 <= oy * m.w + ox && 0 <= (oy * m.w + ox) * m.c + c < m.h * m.w * m.c
  {
    Digits(oy, m.w, ox, m.h);
    Digits(oy * m.w + ox, m.c, c, m.h * m.w);
  }

  /** Where output pixel (ox, oy) starts in the tensor. */
  function Offset(m: Shape, oy: nat, ox: nat): (o: nat) {
    (oy * m.w + ox) * m.c
  }

  lemma OffsetNext(m: Shape, oy: nat, ox: nat)
    ensures Offset(m, oy, 0) == oy * m.w * m.c
    ensures Offset(m, oy, ox + 1) == Offset(m, oy, ox) + m.c
    ensures Offset(m, oy + 1, 0) == Offset(m, oy, m.w)
  {
  }

  lemma OffsetRoom(m: Shape, oy: nat, ox: nat)
    requires Fits(m) && oy < m.h && ox < m.w
    ensures Offset(m, oy, ox) + m.c <= m.h * m.w * m.c
  {
    Digits(oy, m.w, ox, m.h);
    Digits(oy * m.w + ox, m.c, m.c - 1, m.h * m.w);
  }

  /** `nncam_preprocess`: every read lies in the frame, and the whole tensor is written,
      element by element in memory order. */
  method Preprocess(f: Frame, m: Shape, dst: array<real>)
    requires Holds(f) && Fits(m) && dst.Length == m.h * m.w * m.c
    modifies dst
    ensures forall o :: 0 <= o < dst.Length ==> dst[o] == Target(f, m, o)
  {
    hide Target, Offset;
    var oy := 0;
    OffsetNext(m, 0, 0);
    while oy < m.h
      invariant oy <= m.h && Offset(m, oy, 0) <= dst.Length
      invariant forall o :: 0 <= o < Offset(m, oy, 0) ==> dst[o] == Target(f, m, o)
    {
      PreprocessRow(f, m, dst, oy);
      OffsetNext(m, oy, 0);
      oy := oy + 1;
    }
    OffsetNext(m, m.h, 0);
  }

  method PreprocessRow(f: Frame, m: Shape, dst: array<real>, oy: nat)
    requires Holds(f) && Fits(m) && dst.Length == m.h * m.w * m.c && oy < m.h && Offset(m, oy, 0) <= dst.Length
    requires forall o :: 0 <= o < Offset(m, oy, 0) ==> dst[o] == Target(f, m, o)
    modifies dst
    ensures Offset(m, oy, m.w) <= dst.Length
    ensures forall o :: 0 <= o < Offset(m, oy, m.w) ==> dst[o] == Target(f, m, o)
  {
    hide Target, Offset;
    var ox := 0;
    while ox < m.w
      invariant ox <= m.w && Offset(m, oy, ox) <= dst.Length
      invariant forall o :: 0 <= o < Offset(m, oy, ox) ==> dst[o] == Target(f, m, o)
    {
      OffsetRoom(m, oy, ox);
      PreprocessPixel(f, m, dst, oy, ox);
      OffsetNext(m, oy, ox);
      ox := ox + 1;
    }
  }

  method PreprocessPixel(f: Frame, m: Shape, dst: array<real>, oy: nat, ox: nat)
    requires Holds(f) && Fits(m) && dst.Length == m.h * m.w * m.c && oy < m.h && ox < m.w
    requires Offset(m, oy, ox) + m.c <= dst.Length
    requires forall o :: 0 <= o < Offset(m, oy, ox) ==> dst[o] == Target(f, m, o)
    modifies dst
    ensures forall o :: 0 <= o < Offset(m, oy, ox) + m.c ==> dst[o] == Target(f, m, o)
  {
    hide Target, Encode, Channel, PixelAt;
    var px := PixelAt(f, m, ox, oy);
    var o := Offset(m, oy, ox);
    var c := 0;
    while c < m.c
      invariant c <= m.c && o + c <= dst.Length
      invariant forall j :: 0 <= j < o + c ==> dst[j] == Target(f, m, j)
    {
      TargetIs(f, m, ox, oy, c);
      dst[o + c] := Encode(Channel(px, c), m);
      c := c + 1;
    }
  }
}
