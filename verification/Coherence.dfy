/** Tear-free double buffering with a live camera rectangle (port/guix/guix_display.c): the
    toggle skips copying the camera rectangle forward and relies on per-buffer stale flags.
    The state machine below runs beside the plain scheme - stamp the view before every flip,
    copy every dirty rectangle forward - and shows the same pixels. */
module Coherence {
  import opened Machine

  const WIDTH := 480
  const HEIGHT := 272

  /** An RGB565 image, row by row. */
  type Image = seq<seq<u16>>

  predicate Sized(f: Image, w: nat, h: nat) { |f| == h && forall y :: 0 <= y < h ==> |f[y]| == w }

  predicate OnPanel(x: int, y: int) { 0 <= x < WIDTH && 0 <= y < HEIGHT }

  /** Inclusive rectangle, as GUIX passes them: it may be empty or reach beyond the panel. */
  datatype Rect = Rect(left: int, top: int, right: int, bottom: int)

  predicate Inside(r: Rect, x: int, y: int) { r.left <= x <= r.right && r.top <= y <= r.bottom }

  /** The camera icon: position and size on the panel. */
  datatype Geometry = Geometry(x: nat, y: nat, w: nat, h: nat)

  predicate Fits(g: Geometry) { g.w > 0 && g.h > 0 && g.x + g.w <= WIDTH && g.y + g.h <= HEIGHT }

  predicate InCam(g: Geometry, x: int, y: int) { g.x <= x < g.x + g.w && g.y <= y < g.y + g.h }

  predicate RectInCam(r: Rect, g: Geometry) {
    r.left >= g.x && r.top >= g.y && r.right <= g.x + g.w - 1 && r.bottom <= g.y + g.h - 1
  }

  predicate RectCoversCam(r: Rect, g: Geometry) {
    r.left <= g.x && r.top <= g.y && r.right >= g.x + g.w - 1 && r.bottom >= g.y + g.h - 1
  }

  /** @p f with the pixels of @p src inside @p r. */
  function Overlay(f: Image, src: Image, r: Rect): (o: Image)
    requires Sized(f, WIDTH, HEIGHT) && Sized(src, WIDTH, HEIGHT)
    ensures Sized(o, WIDTH, HEIGHT)
    ensures forall x, y :: OnPanel(x, y) ==> o[y][x] == if Inside(r, x, y) then src[y][x] else f[y][x]
  {
    seq(HEIGHT, y requires 0 <= y < HEIGHT =>
      seq(WIDTH, x requires 0 <= x < WIDTH => if Inside(r, x, y) then src[y][x] else f[y][x]))
  }

  /** @p f with the camera view stamped at the icon, inside @p r. */
  function Stamp(f: Image, view: Image, g: Geometry, r: Rect): (o: Image)
    requires Sized(f, WIDTH, HEIGHT) && Sized(view, g.w, g.h) && Fits(g)
    ensures Sized(o, WIDTH, HEIGHT)
    ensures forall x, y :: OnPanel(x, y) ==>
              o[y][x] == if InCam(g, x, y) && Inside(r, x, y) then view[y - g.y][x - g.x] else f[y][x]
  {
    seq(HEIGHT, y requires 0 <= y < HEIGHT =>
      seq(WIDTH, x requires 0 <= x < WIDTH =>
        if InCam(g, x, y) && Inside(r, x, y) then view[y - g.y][x - g.x] else f[y][x]))
  }

  const PANEL := Rect(0, 0, WIDTH - 1, HEIGHT - 1)

  function CamRect(g: Geometry): Rect { Rect(g.x, g.y, g.x + g.w - 1, g.y + g.h - 1) }

  /** The driver's state: which buffer is on screen, which one the canvas draws into, the
      two frame buffers, the registered view buffer, and the flags. @p up: no register reload
      ever got stuck; a stuck one takes the display down for good (port/ltdc/ltdc_display.c). */
  datatype Screen = Screen(front: nat, canvas: nat, fb: seq<Image>, view: Option<Image>, geo: Geometry,
                           stale: seq<bool>, visible: bool, armed: bool, up: bool)

  predicate Buffers(fb: seq<Image>) { |fb| == 2 && Sized(fb[0], WIDTH, HEIGHT) && Sized(fb[1], WIDTH, HEIGHT) }

  predicate Shaped(s: Screen) {
    && s.front < 2 && s.canvas < 2 && Buffers(s.fb) && |s.stale| == 2 && Fits(s.geo)
    && (s.view.Some? ==> Sized(s.view.value, s.geo.w, s.geo.h))
    && (s.armed ==> s.view.Some?)
  }

  /** The canvas draws into the buffer that is not on screen. */
  predicate Formed(s: Screen) { Shaped(s) && s.canvas == 1 - s.front }

  // ---- what the code does ------------------------------------------------------

  function BothStale(s: Screen): Screen { s.(stale := [true, true]) }

  function Begin(s: Screen, view: Image, g: Geometry): Screen {
    if Fits(g) then BothStale(s.(view := Some(view), geo := g, armed := true)) else s
  }

  function End(s: Screen): Screen { s.(armed := false, visible := false, view := None) }

  function SetVisible(s: Screen, on: bool): Screen {
    var s1 := s.(visible := on);
    if on then BothStale(s1) else s1
  }

  /** A new camera frame in the view buffer; @p ok, the transfer completed. */
  function Store(s: Screen, view: Image, ok: bool): Screen {
    if s.view.None? || !s.armed || !ok then s else BothStale(s.(view := Some(view)))
  }

  /** The camera pixelmap drawn into the canvas: a clip that covers the icon is a complete
      repaint. */
  function DrawCam(s: Screen, clip: Rect, ok: bool): Screen
    requires Shaped(s)
  {
    if !s.armed || !ok then s
    else
      var s1 := s.(fb := s.fb[s.canvas := Stamp(s.fb[s.canvas], s.view.value, s.geo, clip)]);
      if RectCoversCam(clip, s.geo) then s1.(stale := s1.stale[1 - s.front := false]) else s1
  }

  /** Any other GUIX drawing. */
  function DrawOther(s: Screen, pixels: Image, r: Rect): Screen
    requires Shaped(s) && Sized(pixels, WIDTH, HEIGHT)
  {
    s.(fb := s.fb[s.canvas := Overlay(s.fb[s.canvas], pixels, r)])
  }

  /** What the hardware does in a toggle: the corrective copy of the camera rectangle is made,
      by DMA2D or by the CPU, unless the engine is wedged; the flip takes effect, or its reload
      gets stuck; the copy of the dirty rectangle completes. */
  datatype Outcome = Outcome(corrected: bool, flipped: bool, copied: bool)

  /** Bring the buffer about to be shown up to date with the view. */
  function Correct(s: Screen, corrected: bool): Screen
    requires Formed(s)
  {
    var b := 1 - s.front;
    if s.visible && s.stale[b] && s.view.Some? && corrected then
      s.(fb := s.fb[b := Stamp(s.fb[b], s.view.value, s.geo, PANEL)], stale := s.stale[b := false])
    else s
  }

  /** After the flip: the canvas moves to the freed buffer, which receives the dirty
      rectangle from the shown one unless it lies within the camera icon. */
  function Forward(s: Screen, dirty: Rect, copied: bool): Screen
    requires Formed(s)
  {
    var s1 := s.(front := 1 - s.front, canvas := s.front);
    if (s.visible && RectInCam(dirty, s.geo)) || !copied then s1
    else s1.(fb := s1.fb[s1.canvas := Overlay(s1.fb[s1.canvas], s1.fb[s1.front], dirty)])
  }

  /** `guix_buffer_toggle`: nothing at all when the canvas is not on the back buffer, of which
      there is none once the display is down. A flip that fails takes it down. */
  function Toggle(s: Screen, dirty: Rect, o: Outcome): Screen
    requires Shaped(s)
  {
    if !s.up || s.canvas == s.front then s
    else if o.flipped then Forward(Correct(s, o.corrected), dirty, o.copied)
    else Correct(s, o.corrected).(up := false)
  }

  // ---- the plain scheme: no flags, no skip, every correction made ----------------------

  function PlainCorrect(fb: seq<Image>, s: Screen): seq<Image>
    requires Formed(s) && Buffers(fb)
  {
    if s.visible && s.view.Some? then fb[1 - s.front := Stamp(fb[1 - s.front], s.view.value, s.geo, PANEL)] else fb
  }

  function PlainToggle(fb: seq<Image>, s: Screen, dirty: Rect, o: Outcome): seq<Image>
    requires Formed(s) && Buffers(fb)
  {
    var c := if s.up then PlainCorrect(fb, s) else fb;
    if s.up && o.flipped && o.copied then c[s.front := Overlay(c[s.front], c[1 - s.front], dirty)] else c
  }

  // ---- both schemes side by side ---------------------------------------------------

  /** @p plain: the buffers under the plain scheme, driven by the same events. @p cycle is
      the dirty rectangle of the refresh in progress, @p painted whether it has repainted
      the whole panel. @p apart: rectangles where the two buffers may differ (dirty
      rectangles whose flip or copy was not made, icons of earlier geometries). @p icons: icons of
      earlier geometries, where the schemes may still differ. */
  datatype World = World(s: Screen, plain: seq<Image>, cycle: Option<Rect>, painted: bool,
                         apart: seq<Rect>, icons: seq<Rect>)

  datatype Event =
    | BeginPreview(view: Image, g: Geometry)
    | EndPreview
    | Visible(on: bool)
    | NewView(view: Image, ok: bool)
    | Refresh(dirty: Rect)
    | CamDraw(clip: Rect, ok: bool)
    | Draw(pixels: Image, r: Rect)
    | Flip(o: Outcome)

  ghost predicate Within(a: Rect, b: Rect) { forall x, y :: Inside(a, x, y) ==> Inside(b, x, y) }

  predicate CoversPanel(r: Rect) { r.left <= 0 && r.top <= 0 && r.right >= WIDTH - 1 && r.bottom >= HEIGHT - 1 }

  predicate Covered(rs: seq<Rect>, x: int, y: int) { exists r <- rs :: Inside(r, x, y) }

  function ViewAt(s: Screen, x: int, y: int): u16
    requires Formed(s) && s.view.Some? && InCam(s.geo, x, y)
  {
    s.view.value[y - s.geo.y][x - s.geo.x]
  }

  /** GUIX draws inside the dirty rectangle of the refresh, and leaves only view pixels in
      the camera rectangle of a canvas that is visible and up to date. An engine too wedged
      for the corrective copy does not complete the copy of the dirty rectangle either. */
  ghost predicate Enabled(w: World, e: Event)
    requires Formed(w.s)
  {
    match e
    case BeginPreview(view, g) => Sized(view, g.w, g.h) && w.s.view.None?
    case NewView(view, _) => Sized(view, w.s.geo.w, w.s.geo.h)
    case Refresh(_) => w.cycle.None?
    case CamDraw(clip, _) => w.cycle.Some? && Within(clip, w.cycle.value)
    case Draw(pixels, r) =>
      && w.cycle.Some? && Within(r, w.cycle.value) && Sized(pixels, WIDTH, HEIGHT)
      && (w.s.visible && w.s.view.Some? && !w.s.stale[w.s.canvas] ==>
            forall x, y :: OnPanel(x, y) && InCam(w.s.geo, x, y) && Inside(r, x, y) ==> pixels[y][x] == ViewAt(w.s, x, y))
    case Flip(o) => w.cycle.Some? && (o.copied ==> o.corrected)
    case _ => true
  }

  predicate Forwards(s: Screen, dirty: Rect) { !(s.visible && RectInCam(dirty, s.geo)) }

  ghost function Next(w: World, e: Event): World
    requires Formed(w.s) && Buffers(w.plain) && Enabled(w, e)
  {
    match e
    case BeginPreview(view, g) =>
      var moved := if g == w.s.geo then [] else [CamRect(w.s.geo)];
      w.(s := Begin(w.s, view, g), apart := w.apart + moved, icons := w.icons + moved)
    case EndPreview => w.(s := End(w.s))
    case Visible(on) => w.(s := SetVisible(w.s, on))
    case NewView(view, ok) => w.(s := Store(w.s, view, ok))
    case Refresh(dirty) => w.(cycle := Some(dirty), painted := false)
    case CamDraw(clip, ok) =>
      w.(s := DrawCam(w.s, clip, ok),
         plain := if !w.s.armed || !ok then w.plain
                  else w.plain[w.s.canvas := Stamp(w.plain[w.s.canvas], w.s.view.value, w.s.geo, clip)])
    case Draw(pixels, r) =>
      w.(s := DrawOther(w.s, pixels, r), plain := w.plain[w.s.canvas := Overlay(w.plain[w.s.canvas], pixels, r)],
         painted := w.painted || CoversPanel(r))
    case Flip(o) =>
      var dirty := w.cycle.value;
      var done := w.s.up && o.flipped && o.copied;
      var whole := done && Forwards(w.s, dirty) && CoversPanel(dirty);
      World(Toggle(w.s, dirty, o), PlainToggle(w.plain, w.s, dirty, o), None, false,
            if whole then [] else if done then w.apart else w.apart + [dirty],
            if whole && w.painted then [] else w.icons)
  }

  // ---- the invariant ---------------------------------------------------------------

  /** At a pixel of the camera rectangle, a buffer whose stale flag is unset shows the
      newest view. */
  predicate FreshAt(s: Screen, x: int, y: int)
    requires Formed(s) && OnPanel(x, y)
  {
    s.visible && s.view.Some? && InCam(s.geo, x, y) ==>
      && (!s.stale[0] ==> s.fb[0][y][x] == ViewAt(s, x, y))
      && (!s.stale[1] ==> s.fb[1][y][x] == ViewAt(s, x, y))
  }

  /** Outside the camera rectangle the two buffers agree. */
  predicate TwinsAt(w: World, x: int, y: int)
    requires Formed(w.s) && OnPanel(x, y)
  {
    || InCam(w.s.geo, x, y) || Covered(w.apart, x, y) || (w.cycle.Some? && Inside(w.cycle.value, x, y))
    || w.s.fb[0][y][x] == w.s.fb[1][y][x]
  }

  /** Outside the camera rectangle both schemes hold the same pixels. */
  predicate RefinesAt(w: World, x: int, y: int)
    requires Formed(w.s) && Buffers(w.plain) && OnPanel(x, y)
  {
    && (!InCam(w.s.geo, x, y) && !Covered(w.icons, x, y) ==>
          w.s.fb[0][y][x] == w.plain[0][y][x] && w.s.fb[1][y][x] == w.plain[1][y][x])
    && (w.painted ==> w.s.fb[w.s.canvas][y][x] == w.plain[w.s.canvas][y][x])
  }

  predicate At(w: World, x: int, y: int)
    requires Formed(w.s) && Buffers(w.plain) && OnPanel(x, y)
  {
    FreshAt(w.s, x, y) && TwinsAt(w, x, y) && RefinesAt(w, x, y)
  }

  ghost predicate Inv(w: World) {
    && Formed(w.s) && Buffers(w.plain) && (w.painted ==> w.cycle.Some?)
    && forall x, y :: OnPanel(x, y) ==> At(w, x, y)
  }

  /** Display start: both buffers black. */
  ghost function Boot(black: Image, g: Geometry): (w: World)
    requires Sized(black, WIDTH, HEIGHT) && Fits(g)
    ensures Inv(w)
  {
    World(Screen(0, 1, [black, black], None, g, [false, false], false, false, true), [black, black], None, false, [], [])
  }

  lemma CoversInside(r: Rect, g: Geometry, x: int, y: int)
    requires RectCoversCam(r, g) && InCam(g, x, y)
    ensures Inside(r, x, y)
  {
  }

  lemma CamDrawAt(w: World, clip: Rect, ok: bool, x: int, y: int)
    requires Formed(w.s) && Buffers(w.plain) && OnPanel(x, y) && At(w, x, y)
    requires Enabled(w, CamDraw(clip, ok))
    ensures var w' := Next(w, CamDraw(clip, ok)); Formed(w'.s) && Buffers(w'.plain) && At(w', x, y)
  {
    hide Stamp, Overlay, Covered, RectCoversCam;
    if RectCoversCam(clip, w.s.geo) && InCam(w.s.geo, x, y) { CoversInside(clip, w.s.geo, x, y); }
  }

  lemma DrawAt(w: World, pixels: Image, r: Rect, x: int, y: int)
    requires Formed(w.s) && Buffers(w.plain) && OnPanel(x, y) && At(w, x, y)
    requires Enabled(w, Draw(pixels, r))
    ensures var w' := Next(w, Draw(pixels, r)); Formed(w'.s) && Buffers(w'.plain) && At(w', x, y)
  {
    hide Stamp, Overlay, Covered;
  }

  /** What the correction leaves at a pixel: the canvas shows the newest view if visible and
      the copy was made or not needed, in both schemes, and nothing else changed. */
  lemma CorrectAt(w: World, corrected: bool, x: int, y: int)
    requires Formed(w.s) && Buffers(w.plain) && OnPanel(x, y) && FreshAt(w.s, x, y)
    ensures var c := Correct(w.s, corrected); var p := PlainCorrect(w.plain, w.s);
            && Formed(c) && Buffers(p) && FreshAt(c, x, y)
            && c == w.s.(fb := c.fb, stale := c.stale)
            && c.fb[w.s.front] == w.s.fb[w.s.front] && p[w.s.front] == w.plain[w.s.front]
            && (if w.s.visible && w.s.view.Some? && InCam(w.s.geo, x, y) then
                  && p[w.s.canvas][y][x] == ViewAt(w.s, x, y)
                  && (corrected || !w.s.stale[w.s.canvas] ==> c.fb[w.s.canvas][y][x] == ViewAt(w.s, x, y))
                else
                  c.fb[w.s.canvas][y][x] == w.s.fb[w.s.canvas][y][x] && p[w.s.canvas][y][x] == w.plain[w.s.canvas][y][x])
  {
    hide Stamp, Overlay;
  }

  lemma FailedFlipAt(w: World, o: Outcome, x: int, y: int)
    requires Formed(w.s) && Buffers(w.plain) && OnPanel(x, y) && At(w, x, y)
    requires Enabled(w, Flip(o)) && !(w.s.up && o.flipped && o.copied)
    ensures var w' := Next(w, Flip(o)); Formed(w'.s) && Buffers(w'.plain) && At(w', x, y)
  {
    hide Stamp, Overlay, Correct, PlainCorrect, Covered;
    CorrectAt(w, o.corrected, x, y);
    CoveredMore(w.apart, w.cycle.value, x, y);
  }

  /** What a dirty rectangle leaves at a pixel. */
  lemma ForwardAt(s: Screen, dirty: Rect, copied: bool, x: int, y: int)
    requires Formed(s) && OnPanel(x, y)
    ensures var s' := Forward(s, dirty, copied);
            && Formed(s') && s' == s.(front := s.canvas, canvas := s.front, fb := s'.fb)
            && s'.fb[s.canvas] == s.fb[s.canvas]
            && s'.fb[s.front][y][x] == if copied && Forwards(s, dirty) && Inside(dirty, x, y) then s.fb[s.canvas][y][x] else s.fb[s.front][y][x]
  {
    hide Overlay;
  }

  lemma FlipAt(w: World, o: Outcome, x: int, y: int)
    requires Formed(w.s) && Buffers(w.plain) && OnPanel(x, y) && At(w, x, y)
    requires Enabled(w, Flip(o)) && w.s.up && o.flipped && o.copied
    ensures var w' := Next(w, Flip(o)); Formed(w'.s) && Buffers(w'.plain) && At(w', x, y)
  {
    hide Stamp, Overlay, Correct, PlainCorrect, Covered, Forward;
    CorrectAt(w, o.corrected, x, y);
    ForwardAt(Correct(w.s, o.corrected), w.cycle.value, true, x, y);
  }

  lemma CoveredMore(rs: seq<Rect>, r: Rect, x: int, y: int)
    ensures Covered(rs + [r], x, y) <==> Covered(rs, x, y) || Inside(r, x, y)
  {
    assert (rs + [r])[|rs|] == r;
    assert forall q <- rs :: q in rs + [r];
  }

  lemma BeginAt(w: World, view: Image, g: Geometry, x: int, y: int)
    requires Formed(w.s) && Buffers(w.plain) && OnPanel(x, y) && At(w, x, y)
    requires Enabled(w, BeginPreview(view, g))
    ensures var w' := Next(w, BeginPreview(view, g)); Formed(w'.s) && Buffers(w'.plain) && At(w', x, y)
  {
    hide Covered;
    CoveredMore(w.apart, CamRect(w.s.geo), x, y);
    CoveredMore(w.icons, CamRect(w.s.geo), x, y);
    assert w.apart + [] == w.apart && w.icons + [] == w.icons;
  }

  /** The other events that move no pixel of a frame buffer. */
  predicate Quiet(e: Event) { e.EndPreview? || e.Visible? || e.NewView? || e.Refresh? }

  lemma QuietAt(w: World, e: Event, x: int, y: int)
    requires Formed(w.s) && Buffers(w.plain) && OnPanel(x, y) && At(w, x, y)
    requires Enabled(w, e) && Quiet(e) && (w.painted ==> w.cycle.Some?)
    ensures var w' := Next(w, e); Formed(w'.s) && Buffers(w'.plain) && At(w', x, y)
  {
    hide Covered;
    var w' := Next(w, e);
    assert FreshAt(w'.s, x, y) && TwinsAt(w', x, y) && RefinesAt(w', x, y);
  }

  lemma StepAt(w: World, e: Event, x: int, y: int)
    requires Inv(w) && Enabled(w, e) && OnPanel(x, y)
    ensures var w' := Next(w, e); Formed(w'.s) && Buffers(w'.plain) && At(w', x, y)
  {
    hide Next, At, Formed, Buffers, Enabled;
    assert At(w, x, y);
    match e
    case CamDraw(clip, ok) => CamDrawAt(w, clip, ok, x, y);
    case Draw(pixels, r) => DrawAt(w, pixels, r, x, y);
    case Flip(o) => if w.s.up && o.flipped && o.copied { FlipAt(w, o, x, y); } else { FailedFlipAt(w, o, x, y); }
    case BeginPreview(view, g) => BeginAt(w, view, g, x, y);
    case _ => QuietAt(w, e, x, y);
  }

  lemma StepKeeps(w: World, e: Event)
    requires Inv(w) && Enabled(w, e)
    ensures Inv(Next(w, e))
  {
    hide At, Formed, Buffers, Toggle, PlainToggle, DrawCam, DrawOther, Begin, Stamp, Overlay;
    StepAt(w, e, 0, 0);
    forall x, y | OnPanel(x, y) ensures At(Next(w, e), x, y) { StepAt(w, e, x, y); }
  }

  // ---- what a flip shows -------------------------------------------------------------

  /** The shown buffer holds the newest view in the camera rectangle. */
  ghost predicate ShowsView(s: Screen)
    requires Formed(s)
  {
    s.view.Some? && forall x, y :: OnPanel(x, y) && InCam(s.geo, x, y) ==> s.fb[s.front][y][x] == ViewAt(s, x, y)
  }

  /** Both schemes show the same pixels, except where an icon of an earlier geometry was
      and, while the camera is hidden, in the camera rectangle. */
  ghost predicate ShowsPlain(w: World)
    requires Formed(w.s) && Buffers(w.plain)
  {
    forall x, y :: OnPanel(x, y) && !Covered(w.icons, x, y) && (InCam(w.s.geo, x, y) ==> w.s.visible && w.s.view.Some?) ==>
      w.s.fb[w.s.front][y][x] == w.plain[w.s.front][y][x]
  }

  /** Outside the camera rectangle both buffers hold the same pixels, but where a copy that
      was not made stranded its drawing or an icon of an earlier geometry was. */
  ghost predicate Twins(w: World)
    requires Formed(w.s)
  {
    forall x, y :: OnPanel(x, y) && !InCam(w.s.geo, x, y) && !Covered(w.apart, x, y) ==>
      w.s.fb[0][y][x] == w.s.fb[1][y][x]
  }

  /** The flip takes effect, and the buffer it shows is up to date with the view. */
  predicate Presents(w: World, o: Outcome)
    requires Formed(w.s)
  {
    w.s.up && o.flipped && (o.corrected || !w.s.stale[w.s.canvas])
  }

  lemma ShownAt(w: World, o: Outcome, x: int, y: int)
    requires Inv(w) && Enabled(w, Flip(o)) && Presents(w, o) && OnPanel(x, y)
    ensures var w' := Next(w, Flip(o));
            && Formed(w'.s) && Buffers(w'.plain)
            && (w.s.visible && w.s.view.Some? && InCam(w.s.geo, x, y) ==>
                  w'.s.fb[w'.s.front][y][x] == ViewAt(w.s, x, y) == w'.plain[w'.s.front][y][x])
            && (w.painted ==> w'.s.fb[w'.s.front][y][x] == w'.plain[w'.s.front][y][x])
  {
    hide Stamp, Overlay, Correct, PlainCorrect, Covered, Forward;
    assert At(w, x, y);
    CorrectAt(w, o.corrected, x, y);
    ForwardAt(Correct(w.s, o.corrected), w.cycle.value, o.copied, x, y);
  }

  /** Every flip that takes effect on an up-to-date buffer: while the camera is visible the
      panel shows the newest view; what it shows is what the plain scheme shows, and all of
      it right after a refresh that repainted the panel; and the two buffers agree but where
      copies failed. */
  lemma Shown(w: World, o: Outcome)
    requires Inv(w) && Enabled(w, Flip(o)) && Presents(w, o)
    ensures var w' := Next(w, Flip(o));
            && Inv(w') && Twins(w') && ShowsPlain(w')
            && (w.s.visible && w.s.view.Some? ==> ShowsView(w'.s))
            && (w.painted ==> w'.s.fb[w'.s.front] == w'.plain[w'.s.front])
  {
    hide Stamp, Overlay, Correct, PlainCorrect, Forward, Enabled, Covered;
    StepKeeps(w, Flip(o));
    var w' := Next(w, Flip(o));
    assert w'.s.visible == w.s.visible && w'.s.view == w.s.view && w'.s.geo == w.s.geo by { FlipFrame(w, o); }
    forall x, y | OnPanel(x, y)
      ensures At(w', x, y)
      ensures w.s.visible && w.s.view.Some? && InCam(w.s.geo, x, y) ==>
                w'.s.fb[w'.s.front][y][x] == ViewAt(w.s, x, y) == w'.plain[w'.s.front][y][x]
      ensures w.painted ==> w'.s.fb[w'.s.front][y][x] == w'.plain[w'.s.front][y][x]
    {
      ShownAt(w, o, x, y);
    }
    if w.painted { SameImage(w'.s.fb[w'.s.front], w'.plain[w'.s.front], WIDTH, HEIGHT); }
  }

  lemma FlipFrame(w: World, o: Outcome)
    requires Inv(w) && Enabled(w, Flip(o))
    ensures var s := Next(w, Flip(o)).s; s.visible == w.s.visible && s.view == w.s.view && s.geo == w.s.geo
  {
    hide Stamp, Overlay, At, Covered;
  }

  lemma SameImage(f: Image, g: Image, w: nat, h: nat)
    requires Sized(f, w, h) && Sized(g, w, h)
    requires forall x, y :: 0 <= x < w && 0 <= y < h ==> f[y][x] == g[y][x]
    ensures f == g
  {
    forall y | 0 <= y < h ensures f[y] == g[y] {
      assert forall x :: 0 <= x < w ==> f[y][x] == g[y][x];
    }
  }

  // ---- what a flip does to the agreement of the buffers --------------------------------

  /** At every pixel outside the camera rectangle the two buffers agree after a toggle exactly
      where they did before or, if the display is up, the flip took effect and the copy
      completed, the dirty rectangle reaches. */
  lemma FlipAgreesAt(w: World, o: Outcome, x: int, y: int)
    requires Inv(w) && Enabled(w, Flip(o)) && OnPanel(x, y) && !InCam(w.s.geo, x, y)
    ensures var w' := Next(w, Flip(o));
            && Formed(w'.s)
            && (w'.s.fb[0][y][x] == w'.s.fb[1][y][x] <==>
                  w.s.fb[0][y][x] == w.s.fb[1][y][x] || (w.s.up && o.flipped && o.copied && Inside(w.cycle.value, x, y)))
  {
    hide Stamp, Overlay, Correct, PlainCorrect, Forward, Covered;
    assert At(w, x, y);
    CorrectAt(w, o.corrected, x, y);
    if w.s.up && o.flipped { ForwardAgreesAt(Correct(w.s, o.corrected), w.cycle.value, o.copied, x, y); }
  }

  lemma ForwardAgreesAt(s: Screen, dirty: Rect, copied: bool, x: int, y: int)
    requires Formed(s) && OnPanel(x, y) && !InCam(s.geo, x, y)
    ensures var s' := Forward(s, dirty, copied);
            && Formed(s')
            && (s'.fb[0][y][x] == s'.fb[1][y][x] <==> s.fb[0][y][x] == s.fb[1][y][x] || (copied && Inside(dirty, x, y)))
  {
    hide Overlay;
  }

  /** Where nothing is stranded, a difference left by the drawing of a cycle is healed exactly
      if the display is up, its flip takes effect and its copy completes. */
  lemma FlipHealsExactly(w: World, o: Outcome, x: int, y: int)
    requires Inv(w) && Enabled(w, Flip(o)) && OnPanel(x, y)
    requires !InCam(w.s.geo, x, y) && !Covered(w.apart, x, y) && w.s.fb[0][y][x] != w.s.fb[1][y][x]
    ensures var w' := Next(w, Flip(o));
            Formed(w'.s) && (w'.s.fb[0][y][x] == w'.s.fb[1][y][x] <==> w.s.up && o.flipped && o.copied)
  {
    hide Next, Enabled, Formed, Buffers, Covered;
    assert At(w, x, y);
    FlipAgreesAt(w, o, x, y);
  }

  /** The one way a toggle can leave a buffer marked up to date that is not: the correction of
      the shown buffer was needed and not made, the freed buffer was up to date, and the dirty
      rectangle is copied over the icon all the same. */
  predicate Misled(s: Screen, dirty: Rect, o: Outcome, x: int, y: int)
    requires Formed(s)
  {
    && s.up && o.flipped && o.copied && !o.corrected
    && s.visible && s.view.Some? && InCam(s.geo, x, y) && s.stale[s.canvas] && !s.stale[s.front]
    && Inside(dirty, x, y) && !RectInCam(dirty, s.geo)
  }

  /** Whatever a toggle meets, at each pixel an unset stale flag still means the newest view
      exactly unless it is misled there and the stale buffer did not happen to hold the view. */
  lemma ToggleFreshAt(s: Screen, dirty: Rect, o: Outcome, x: int, y: int)
    requires Formed(s) && OnPanel(x, y) && FreshAt(s, x, y)
    ensures var s' := Toggle(s, dirty, o);
            && Formed(s')
            && (FreshAt(s', x, y) <==> (Misled(s, dirty, o, x, y) ==> s.fb[s.canvas][y][x] == ViewAt(s, x, y)))
  {
    hide Overlay, Stamp, Correct, Forward;
    CorrectedAt(s, o.corrected, x, y);
    ForwardAt(Correct(s, o.corrected), dirty, o.copied, x, y);
  }

  lemma CorrectedAt(s: Screen, corrected: bool, x: int, y: int)
    requires Formed(s) && OnPanel(x, y)
    ensures var c, needed := Correct(s, corrected), s.visible && s.stale[s.canvas] && s.view.Some? && corrected;
            && Formed(c) && c == s.(fb := c.fb, stale := if needed then s.stale[s.canvas := false] else s.stale)
            && c.fb[s.front] == s.fb[s.front]
            && c.fb[s.canvas][y][x] == if needed && InCam(s.geo, x, y) then ViewAt(s, x, y) else s.fb[s.canvas][y][x]
  {
    hide Overlay, Stamp;
  }

  // ---- runs -----------------------------------------------------------------------------

  /** The events can happen in this order. */
  ghost predicate Possible(w: World, es: seq<Event>)
    requires Inv(w)
    decreases |es|
  {
    es == [] || (Enabled(w, es[0]) && (StepKeeps(w, es[0]); Possible(Next(w, es[0]), es[1..])))
  }

  /** Every run keeps the invariant. */
  ghost function After(w: World, es: seq<Event>): (w': World)
    requires Inv(w) && Possible(w, es)
    ensures Inv(w')
    decreases |es|
  {
    if es == [] then w else StepKeeps(w, es[0]); After(Next(w, es[0]), es[1..])
  }

  /** A run in which every session uses the geometry @p g. */
  predicate OneGeometry(es: seq<Event>, g: Geometry) {
    forall e <- es :: e.BeginPreview? ==> e.g == g
  }

  /** A run in which no copy of a dirty rectangle fails. */
  predicate AllCopied(es: seq<Event>) { forall e <- es :: e.Flip? ==> e.o.copied }

  lemma {:induction false} RunShape(w: World, es: seq<Event>, g: Geometry)
    requires Inv(w) && Possible(w, es) && OneGeometry(es, g) && w.s.geo == g && w.icons == []
    ensures After(w, es).icons == [] && After(w, es).s.geo == g
    ensures (w.s.up ==> w.apart == []) && AllCopied(es) && After(w, es).s.up ==> After(w, es).apart == []
    decreases |es|
  {
    hide At, Formed, Buffers, Next, Enabled;
    if es == [] {
    } else {
      assert es[0] in es;
      StepShape(w, es[0], g);
      StepKeeps(w, es[0]);
      assert forall e <- es[1..] :: e in es;
      RunShape(Next(w, es[0]), es[1..], g);
    }
  }

  lemma StepShape(w: World, e: Event, g: Geometry)
    requires Inv(w) && Enabled(w, e) && (e.BeginPreview? ==> e.g == g) && w.s.geo == g && w.icons == []
    ensures var w' := Next(w, e);
            && w'.icons == [] && w'.s.geo == g && (w'.s.up ==> w.s.up)
            && ((w.s.up ==> w.apart == []) && (e.Flip? ==> e.o.copied) ==> (w'.s.up ==> w'.apart == []))
  {
    hide At, Stamp, Overlay;
  }

  /** All runs with one geometry, whatever flips and copies fail: each frame shown from an
      up-to-date buffer while the camera is visible is, pixel for pixel, the frame of the
      plain scheme, with the newest view in the camera rectangle. If no copy failed, the two
      buffers then differ at most in the camera rectangle. */
  lemma RunShows(black: Image, g: Geometry, es: seq<Event>, o: Outcome)
    requires Sized(black, WIDTH, HEIGHT) && Fits(g)
    requires Possible(Boot(black, g), es) && OneGeometry(es, g)
    requires var w := After(Boot(black, g), es); Enabled(w, Flip(o)) && Presents(w, o)
    ensures var w := After(Boot(black, g), es); var w' := Next(w, Flip(o));
            && Inv(w')
            && (w.s.visible && w.s.view.Some? ==> ShowsView(w'.s) && w'.s.fb[w'.s.front] == w'.plain[w'.s.front])
            && (AllCopied(es) && o.copied ==>
                  forall x, y :: OnPanel(x, y) && !InCam(g, x, y) ==> w'.s.fb[0][y][x] == w'.s.fb[1][y][x])
  {
    hide At, Stamp, Overlay, Correct, PlainCorrect, Forward, Enabled, Possible, After, AllCopied;
    var w := After(Boot(black, g), es);
    RunShape(Boot(black, g), es, g);
    Shown(w, o);
    FlipFrame(w, o);
    var w' := Next(w, Flip(o));
    if w.s.visible && w.s.view.Some? {
      assert forall x, y :: OnPanel(x, y) ==> !Covered(w'.icons, x, y);
      SameImage(w'.s.fb[w'.s.front], w'.plain[w'.s.front], WIDTH, HEIGHT);
    }
  }

  /** The same after every flip that takes effect, up to date or not: if no copy failed, the two
      buffers differ at most in the camera rectangle. */
  lemma RunAgrees(black: Image, g: Geometry, es: seq<Event>, o: Outcome)
    requires Sized(black, WIDTH, HEIGHT) && Fits(g)
    requires Possible(Boot(black, g), es) && OneGeometry(es, g) && AllCopied(es)
    requires var w := After(Boot(black, g), es); Enabled(w, Flip(o)) && w.s.up && o.flipped && o.copied
    ensures var w' := Next(After(Boot(black, g), es), Flip(o));
            && Inv(w')
            && forall x, y :: OnPanel(x, y) && !InCam(g, x, y) ==> w'.s.fb[0][y][x] == w'.s.fb[1][y][x]
  {
    hide At, Stamp, Overlay, Correct, PlainCorrect, Forward, Enabled, Possible, After, AllCopied;
    var w := After(Boot(black, g), es);
    RunShape(Boot(black, g), es, g);
    StepKeeps(w, Flip(o));
    var w' := Next(w, Flip(o));
    FlipFrame(w, o);
    forall x, y | OnPanel(x, y) && !InCam(g, x, y) ensures w'.s.fb[0][y][x] == w'.s.fb[1][y][x] {
      AgreesAt(w', x, y);
    }
  }

  lemma AgreesAt(w: World, x: int, y: int)
    requires Inv(w) && OnPanel(x, y) && !InCam(w.s.geo, x, y) && w.apart == [] && w.cycle.None?
    ensures w.s.fb[0][y][x] == w.s.fb[1][y][x]
  {
    assert At(w, x, y);
  }

  // ---- the display down -------------------------------------------------------------------

  /** A flip that fails takes the display down, and what is on screen stays there. */
  lemma FailedFlipLatches(w: World, o: Outcome)
    requires Inv(w) && Enabled(w, Flip(o))
    ensures var s := Next(w, Flip(o)).s;
            (s.up <==> w.s.up && o.flipped) && (!s.up ==> s.front == w.s.front && s.fb[s.front] == w.s.fb[w.s.front])
  {
    hide At, Stamp, Overlay;
  }

  /** From then on no flip takes effect, whatever happens: the display stays down, the same
      buffer stays on screen, and not one of its pixels changes. */
  lemma {:induction false} DownIsFinal(w: World, es: seq<Event>)
    requires Inv(w) && Possible(w, es) && !w.s.up
    ensures var s := After(w, es).s; !s.up && s.front == w.s.front && s.fb[s.front] == w.s.fb[w.s.front]
    decreases |es|
  {
    hide At, Formed, Buffers, Next, Enabled;
    if es == [] {
    } else {
      StepKeeps(w, es[0]);
      DownStep(w, es[0]);
      DownIsFinal(Next(w, es[0]), es[1..]);
    }
  }

  lemma DownStep(w: World, e: Event)
    requires Inv(w) && Enabled(w, e) && !w.s.up
    ensures var s := Next(w, e).s; !s.up && s.front == w.s.front && s.fb[s.front] == w.s.fb[w.s.front]
  {
    hide At, Stamp, Overlay;
  }

  // ---- a run whose buffers end up different ---------------------------------------------

  /** A one-pixel refresh. */
  function Dot(x: int): Rect { Rect(x, 0, x, 0) }

  const WELL := Outcome(true, true, true)

  /** Draw a pixel and flip without its copy, refresh another pixel, and flip. */
  function StrandingRun(pixels: Image): seq<Event> {
    [Refresh(Dot(0)), Draw(pixels, Dot(0)), Flip(Outcome(true, true, false)), Refresh(Dot(1)), Flip(WELL)]
  }

  /** One more event in front of a possible run. */
  lemma RunFirst(w: World, e: Event, es: seq<Event>)
    requires Inv(w) && Enabled(w, e) && Inv(Next(w, e)) && Possible(Next(w, e), es)
    ensures Possible(w, [e] + es) && After(w, [e] + es) == After(Next(w, e), es)
  {
    hide At, Formed, Buffers, Next, Enabled;
    assert ([e] + es)[1..] == es;
  }

  lemma NoEvents(w: World)
    requires Inv(w)
    ensures Possible(w, []) && After(w, []) == w
  {
  }

  lemma RefreshStep(w: World, r: Rect)
    requires Inv(w) && w.cycle.None?
    ensures Formed(w.s) && Buffers(w.plain) && Enabled(w, Refresh(r))
    ensures var w' := Next(w, Refresh(r)); Inv(w') && w' == w.(cycle := Some(r), painted := false)
  {
    hide At;
    StepKeeps(w, Refresh(r));
  }

  lemma DrawStep(w: World, pixels: Image, r: Rect)
    requires Inv(w) && Formed(w.s) && w.cycle == Some(r) && Sized(pixels, WIDTH, HEIGHT) && !w.s.visible && Inside(r, 0, 0)
    ensures Enabled(w, Draw(pixels, r))
    ensures var w' := Next(w, Draw(pixels, r));
            && Inv(w') && Formed(w'.s) && w'.s.geo == w.s.geo && w'.s.up == w.s.up
            && w'.cycle == w.cycle && w'.s.canvas == w.s.canvas
            && w'.s.fb[w.s.canvas][0][0] == pixels[0][0] && w'.s.fb[1 - w.s.canvas] == w.s.fb[1 - w.s.canvas]
  {
    hide At;
    StepKeeps(w, Draw(pixels, r));
  }

  /** A difference outside the icon survives a flip whose copy fails, and one whose dirty
      rectangle does not reach it. */
  lemma FlipStep(w: World, o: Outcome, g: Geometry)
    requires Inv(w) && w.cycle.Some? && (o.copied ==> o.corrected) && w.s.geo == g && !InCam(g, 0, 0)
    requires Formed(w.s) && w.s.fb[0][0][0] != w.s.fb[1][0][0] && !(o.flipped && o.copied && Inside(w.cycle.value, 0, 0))
    ensures Enabled(w, Flip(o))
    ensures var w' := Next(w, Flip(o));
            && Inv(w') && w'.cycle.None? && w'.s.geo == g && Formed(w'.s) && w'.s.fb[0][0][0] != w'.s.fb[1][0][0]
            && w'.s.up == (w.s.up && o.flipped)
  {
    hide At, Stamp, Overlay;
    StepKeeps(w, Flip(o));
    FlipAgreesAt(w, o, 0, 0);
  }

  /** The agreement does fail after a copy that failed: from display start, with an icon that
      does not reach the corner, a drawn pixel whose copy failed stays different in the two
      buffers through a later flip that takes effect and is copied, with the display up. */
  lemma LostCopyStrands(black: Image, pixels: Image, g: Geometry)
    requires Sized(black, WIDTH, HEIGHT) && Sized(pixels, WIDTH, HEIGHT) && Fits(g) && !InCam(g, 0, 0)
    requires pixels[0][0] != black[0][0]
    ensures Possible(Boot(black, g), StrandingRun(pixels))
    ensures var w := After(Boot(black, g), StrandingRun(pixels)); w.s.up && w.s.fb[0][0][0] != w.s.fb[1][0][0]
  {
    hide At, Formed, Buffers, Next, Enabled, Possible, After;
    var w0 := Boot(black, g);
    var e1, e2, e3, e4, e5 := Refresh(Dot(0)), Draw(pixels, Dot(0)), Flip(Outcome(true, true, false)), Refresh(Dot(1)), Flip(WELL);
    RefreshStep(w0, Dot(0));
    var w1 := Next(w0, e1);
    DrawStep(w1, pixels, Dot(0));
    var w2 := Next(w1, e2);
    FlipStep(w2, e3.o, g);
    var w3 := Next(w2, e3);
    RefreshStep(w3, Dot(1));
    var w4 := Next(w3, e4);
    FlipStep(w4, WELL, g);
    FiveSteps(w0, e1, e2, e3, e4, e5);
  }

  lemma FiveSteps(w: World, e1: Event, e2: Event, e3: Event, e4: Event, e5: Event)
    requires Inv(w) && Enabled(w, e1) && Inv(Next(w, e1)) && var w1 := Next(w, e1);
      && Enabled(w1, e2) && Inv(Next(w1, e2)) && var w2 := Next(w1, e2);
      && Enabled(w2, e3) && Inv(Next(w2, e3)) && var w3 := Next(w2, e3);
      && Enabled(w3, e4) && Inv(Next(w3, e4)) && var w4 := Next(w3, e4);
      && Enabled(w4, e5) && Inv(Next(w4, e5))
    ensures Possible(w, [e1, e2, e3, e4, e5])
    ensures After(w, [e1, e2, e3, e4, e5]) == Next(Next(Next(Next(Next(w, e1), e2), e3), e4), e5)
  {
    hide At, Formed, Buffers, Next, Enabled, Possible, After;
    var w1 := Next(w, e1);
    var w2 := Next(w1, e2);
    var w3 := Next(w2, e3);
    var w4 := Next(w3, e4);
    NoEvents(Next(w4, e5));
    RunFirst(w4, e5, []);
    RunFirst(w3, e4, [e5] + []);
    RunFirst(w2, e3, [e4] + ([e5] + []));
    RunFirst(w1, e2, [e3] + ([e4] + ([e5] + [])));
    RunFirst(w, e1, [e2] + ([e3] + ([e4] + ([e5] + []))));
    assert [e1] + ([e2] + ([e3] + ([e4] + ([e5] + [])))) == [e1, e2, e3, e4, e5];
  }

  // ---- a run that leads to a misled toggle ----------------------------------------------------

  /** Open the preview, show it, repaint the icon in one buffer and flip, then refresh the
      panel: the shown buffer is up to date, the other one still black. */
  function MisleadingRun(view: Image, g: Geometry): seq<Event> {
    [BeginPreview(view, g), Visible(true), Refresh(CamRect(g)), CamDraw(CamRect(g), true), Flip(WELL)] + [Refresh(PANEL)]
  }

  /** The state a preview is in once one of its buffers has been painted and shown. */
  predicate HalfPainted(w: World, black: Image, view: Image, g: Geometry) {
    && Formed(w.s) && w.s.up && w.s.visible && w.s.view == Some(view) && w.s.geo == g && Sized(view, g.w, g.h)
    && w.s.front == 1 && w.s.stale == [true, false] && w.s.fb[0] == black
  }

  lemma PreviewSteps(black: Image, view: Image, g: Geometry)
    requires Sized(black, WIDTH, HEIGHT) && Fits(g) && Sized(view, g.w, g.h)
    ensures var w := Boot(black, g);
      && Enabled(w, BeginPreview(view, g)) && var w1 := Next(w, BeginPreview(view, g));
      && Inv(w1) && Enabled(w1, Visible(true)) && var w2 := Next(w1, Visible(true));
      && Inv(w2) && Enabled(w2, Refresh(CamRect(g))) && var w3 := Next(w2, Refresh(CamRect(g)));
      && Inv(w3) && w3.cycle == Some(CamRect(g))
      && w3.s == Screen(0, 1, [black, black], Some(view), g, [true, true], true, true, true)
  {
    hide At;
    var w := Boot(black, g);
    StepKeeps(w, BeginPreview(view, g));
    var w1 := Next(w, BeginPreview(view, g));
    StepKeeps(w1, Visible(true));
    var w2 := Next(w1, Visible(true));
    StepKeeps(w2, Refresh(CamRect(g)));
  }

  lemma PaintSteps(w: World, black: Image, view: Image, g: Geometry)
    requires Inv(w) && w.cycle == Some(CamRect(g)) && Sized(black, WIDTH, HEIGHT) && Fits(g) && Sized(view, g.w, g.h)
    requires w.s == Screen(0, 1, [black, black], Some(view), g, [true, true], true, true, true)
    ensures Enabled(w, CamDraw(CamRect(g), true)) && var w1 := Next(w, CamDraw(CamRect(g), true));
      && Inv(w1) && Enabled(w1, Flip(WELL)) && var w2 := Next(w1, Flip(WELL));
      && Inv(w2) && w2.cycle.None? && HalfPainted(w2, black, view, g)
  {
    hide At, Overlay, Stamp;
    StepKeeps(w, CamDraw(CamRect(g), true));
    var w1 := Next(w, CamDraw(CamRect(g), true));
    StepKeeps(w1, Flip(WELL));
  }

  /** From display start, with an icon smaller than the panel: a toggle whose correction is not
      made and whose copy is leaves the freed buffer marked up to date with a black pixel in
      the icon. */
  lemma WedgedCopyMisleads(black: Image, view: Image, g: Geometry)
    requires Sized(black, WIDTH, HEIGHT) && Fits(g) && Sized(view, g.w, g.h)
    requires !RectInCam(PANEL, g) && view[0][0] != black[g.y][g.x]
    ensures Possible(Boot(black, g), MisleadingRun(view, g))
    ensures var w := After(Boot(black, g), MisleadingRun(view, g)); var s' := Toggle(w.s, PANEL, Outcome(false, true, true));
            && w.cycle == Some(PANEL) && Misled(w.s, PANEL, Outcome(false, true, true), g.x, g.y)
            && Formed(s') && OnPanel(g.x, g.y) && !s'.stale[s'.canvas] && !FreshAt(s', g.x, g.y)
  {
    hide At, Buffers, Next, Enabled, Possible, After, Toggle;
    var w0 := Boot(black, g);
    PreviewSteps(black, view, g);
    var e1, e2, e3, e4, e5 := BeginPreview(view, g), Visible(true), Refresh(CamRect(g)), CamDraw(CamRect(g), true), Flip(WELL);
    var w1 := Next(w0, e1);
    var w2 := Next(w1, e2);
    var w3 := Next(w2, e3);
    PaintSteps(w3, black, view, g);
    var w4 := Next(w3, e4);
    var w5 := Next(w4, e5);
    RefreshStep(w5, PANEL);
    FiveSteps(w0, e1, e2, e3, e4, e5);
    NoEvents(Next(w5, Refresh(PANEL)));
    RunFirst(w5, Refresh(PANEL), []);
    assert [Refresh(PANEL)] + [] == [Refresh(PANEL)];
    RunThen(w0, [e1, e2, e3, e4, e5], [Refresh(PANEL)]);
    MisledState(Next(w5, Refresh(PANEL)), black, view, g);
  }

  lemma MisledState(w: World, black: Image, view: Image, g: Geometry)
    requires Inv(w) && HalfPainted(w, black, view, g) && Sized(black, WIDTH, HEIGHT) && Fits(g)
    requires !RectInCam(PANEL, g) && view[0][0] != black[g.y][g.x]
    ensures var s' := Toggle(w.s, PANEL, Outcome(false, true, true));
            && Misled(w.s, PANEL, Outcome(false, true, true), g.x, g.y)
            && Formed(s') && !s'.stale[s'.canvas] && !FreshAt(s', g.x, g.y)
  {
    hide Overlay, Stamp;
    assert At(w, g.x, g.y);
    ToggleFreshAt(w.s, PANEL, Outcome(false, true, true), g.x, g.y);
  }

  /** One run after another. */
  lemma {:induction false} RunThen(w: World, es: seq<Event>, more: seq<Event>)
    requires Inv(w) && Possible(w, es) && Possible(After(w, es), more)
    ensures Possible(w, es + more) && After(w, es + more) == After(After(w, es), more)
    decreases |es|
  {
    hide At, Formed, Buffers, Next, Enabled;
    if es == [] {
      assert es + more == more;
    } else {
      StepKeeps(w, es[0]);
      assert (es + more)[1..] == es[1..] + more;
      RunThen(Next(w, es[0]), es[1..], more);
    }
  }
}
