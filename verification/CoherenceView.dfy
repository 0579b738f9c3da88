/** What the panel shows, told by what the application asked for: the frame stored last, the
    session opened last, the camera screen shown or hidden (port/guix/guix_display.c). */
module CoherenceView {
  import opened Machine
  import opened Coherence

  /** No new frame, no new session: a store that failed leaves the view as it is. */
  predicate KeepsView(e: Event) { !e.BeginPreview? && !e.EndPreview? && (e.NewView? ==> !e.ok) }

  predicate KeepsShowing(e: Event) { !e.EndPreview? && !e.Visible? }

  lemma ViewStep(w: World, e: Event)
    requires Inv(w) && Enabled(w, e) && KeepsView(e)
    ensures var s := Next(w, e).s; s.view == w.s.view && s.geo == w.s.geo && s.armed == w.s.armed
  {
    hide At, Stamp, Overlay, Correct, Forward, PlainCorrect, Covered;
    if e.Flip? { FlipSession(w, e.o); }
  }

  lemma FlipSession(w: World, o: Outcome)
    requires Inv(w) && Enabled(w, Flip(o))
    ensures var s := Next(w, Flip(o)).s;
            s.view == w.s.view && s.geo == w.s.geo && s.armed == w.s.armed && s.visible == w.s.visible
  {
    hide At, Stamp, Overlay, PlainCorrect, Covered;
  }

  /** The view, its place and the session last until the next frame, begin or end. */
  lemma {:induction false} ViewLasts(w: World, es: seq<Event>)
    requires Inv(w) && Possible(w, es) && forall e <- es :: KeepsView(e)
    ensures var s := After(w, es).s; s.view == w.s.view && s.geo == w.s.geo && s.armed == w.s.armed
    decreases |es|
  {
    hide At, Formed, Buffers, Next, Enabled, KeepsView;
    if es == [] {
    } else {
      assert es[0] in es;
      ViewStep(w, es[0]);
      StepKeeps(w, es[0]);
      assert forall e <- es[1..] :: e in es;
      ViewLasts(Next(w, es[0]), es[1..]);
    }
  }

  lemma ShowingStep(w: World, e: Event)
    requires Inv(w) && Enabled(w, e)
    ensures var s := Next(w, e).s;
            && (KeepsShowing(e) ==> s.visible == w.s.visible)
            && (e.Visible? ==> s.visible == e.on)
            && (e.EndPreview? ==> !s.visible && !s.armed && s.view.None?)
  {
    hide At, Stamp, Overlay, Correct, Forward, PlainCorrect, Covered;
    if e.Flip? { FlipSession(w, e.o); }
  }

  /** The display stays up until a flip fails, and the buffers change places exactly at a flip
      that takes effect. */
  lemma BuffersChangePlaces(w: World, e: Event)
    requires Inv(w) && Enabled(w, e)
    ensures var s := Next(w, e).s;
            && (s.up <==> w.s.up && (e.Flip? ==> e.o.flipped))
            && s.front == (if e.Flip? && w.s.up && e.o.flipped then w.s.canvas else w.s.front)
            && s.canvas == 1 - s.front
  {
    hide At, Stamp, Overlay, PlainCorrect, Covered, Correct, Forward;
    if e.Flip? { FlipPlaces(w, e.o); }
  }

  lemma FlipPlaces(w: World, o: Outcome)
    requires Inv(w) && Enabled(w, Flip(o))
    ensures var s, live := Next(w, Flip(o)).s, w.s.up && o.flipped;
            s.up == live && s.front == (if live then w.s.canvas else w.s.front) && s.canvas == 1 - s.front
  {
    hide At, Stamp, Overlay, PlainCorrect, Covered;
  }

  /** The camera screen is on display from the event that shows it until one that hides it or
      ends the session. */
  lemma ShowingLasts(w: World, on: bool, es: seq<Event>)
    requires Inv(w) && Possible(w, [Visible(on)] + es) && forall e <- es :: KeepsShowing(e)
    ensures After(w, [Visible(on)] + es).s.visible == on
  {
    hide At, Formed, Buffers, Next, Enabled, KeepsShowing;
    FirstOf(w, Visible(on), es);
    ShowingStep(w, Visible(on));
    SameShowing(Next(w, Visible(on)), es);
  }

  lemma {:induction false} SameShowing(w: World, es: seq<Event>)
    requires Inv(w) && Possible(w, es) && forall e <- es :: KeepsShowing(e)
    ensures After(w, es).s.visible == w.s.visible
    decreases |es|
  {
    hide At, Formed, Buffers, Next, Enabled, KeepsShowing;
    if es == [] {
    } else {
      assert es[0] in es;
      ShowingStep(w, es[0]);
      StepKeeps(w, es[0]);
      assert forall e <- es[1..] :: e in es;
      SameShowing(Next(w, es[0]), es[1..]);
    }
  }

  /** The run behind the first event of a run. */
  lemma FirstOf(w: World, e: Event, es: seq<Event>)
    requires Inv(w) && Possible(w, [e] + es)
    ensures Enabled(w, e) && Inv(Next(w, e)) && Possible(Next(w, e), es)
    ensures After(w, [e] + es) == After(Next(w, e), es)
  {
    hide At, Formed, Buffers, Next, Enabled;
    assert ([e] + es)[1..] == es;
    StepKeeps(w, e);
  }

  /** The panel holds @p v at the icon. */
  ghost predicate Displays(s: Screen, v: Image, g: Geometry)
    requires |s.fb| == 2 && s.front < 2 && Sized(s.fb[s.front], WIDTH, HEIGHT) && Sized(v, g.w, g.h) && Fits(g)
  {
    forall y, x :: g.y <= y < g.y + g.h && g.x <= x < g.x + g.w ==> s.fb[s.front][y][x] == v[y - g.y][x - g.x]
  }

  lemma ShownView(w: World, v: Image, g: Geometry, o: Outcome)
    requires Inv(w) && Enabled(w, Flip(o)) && Presents(w, o) && w.s.visible
    requires w.s.view == Some(v) && w.s.geo == g
    ensures var s := Next(w, Flip(o)).s; Formed(s) && Sized(v, g.w, g.h) && Displays(s, v, g)
  {
    hide Stamp, Overlay, Correct, PlainCorrect, Forward, Toggle, Enabled, At, Next;
    Shown(w, o);
    FlipFrame(w, o);
    var s := Next(w, Flip(o)).s;
    forall y, x | g.y <= y < g.y + g.h && g.x <= x < g.x + g.w ensures s.fb[s.front][y][x] == v[y - g.y][x - g.x] {
      assert OnPanel(x, y) && InCam(s.geo, x, y);
      assert s.fb[s.front][y][x] == ViewAt(s, x, y);
    }
  }

  /** A frame stored in a session is what every later flip of a visible camera screen shows at
      the icon, pixel for pixel, until the next frame, begin or end - whatever is drawn, fails
      or is hidden in between. */
  lemma StoredFrameShown(w: World, v: Image, es: seq<Event>, o: Outcome)
    requires Inv(w) && w.s.armed && Possible(w, [NewView(v, true)] + es) && forall e <- es :: KeepsView(e)
    requires var w' := After(w, [NewView(v, true)] + es); Enabled(w', Flip(o)) && Presents(w', o) && w'.s.visible
    ensures var s := Next(After(w, [NewView(v, true)] + es), Flip(o)).s;
            Formed(s) && Sized(v, w.s.geo.w, w.s.geo.h) && Displays(s, v, w.s.geo)
  {
    hide At, Buffers, Possible, After, Toggle, Shaped, DrawCam, KeepsView, Presents;
    FirstOf(w, NewView(v, true), es);
    var w1 := Next(w, NewView(v, true));
    StoreStep(w, v);
    ViewLasts(w1, es);
    ShownView(After(w1, es), v, w.s.geo, o);
  }

  /** What a store does: a completed one in a session makes the frame the view and both buffers
      stale, any other changes nothing. */
  lemma StoreStep(w: World, v: Image)
    requires Inv(w) && Enabled(w, NewView(v, true)) && w.s.armed
    ensures var s := Next(w, NewView(v, true)).s;
            s.view == Some(v) && s.geo == w.s.geo && s.armed && s.stale == [true, true] && s.fb == w.s.fb
  {
    hide At;
  }

  /** A session opened on a good geometry shows its view buffer there, from the moment its
      camera screen is shown, until the first frame is stored. */
  lemma OpenedViewShown(w: World, v: Image, g: Geometry, es: seq<Event>, o: Outcome)
    requires Inv(w) && Possible(w, [BeginPreview(v, g)] + es) && forall e <- es :: KeepsView(e)
    requires var w' := After(w, [BeginPreview(v, g)] + es); Enabled(w', Flip(o)) && Presents(w', o) && w'.s.visible
    requires Fits(g)
    ensures var w' := After(w, [BeginPreview(v, g)] + es); var s := Next(w', Flip(o)).s;
            w'.s.armed && Formed(s) && Sized(v, g.w, g.h) && Displays(s, v, g)
  {
    hide At, Buffers, Possible, After, Toggle, Shaped, DrawCam, KeepsView, Presents;
    FirstOf(w, BeginPreview(v, g), es);
    var w1 := Next(w, BeginPreview(v, g));
    assert w1.s.view == Some(v) && w1.s.geo == g && w1.s.armed;
    ViewLasts(w1, es);
    ShownView(After(w1, es), v, g, o);
  }

  /** A store outside a session, a store that fails and a begin on a bad geometry change
      nothing. */
  lemma RefusedChangesNothing(w: World, v: Image, g: Geometry, ok: bool)
    requires Inv(w)
    ensures Enabled(w, NewView(v, ok)) && (!w.s.armed || !ok) ==> Next(w, NewView(v, ok)).s == w.s
    ensures Enabled(w, BeginPreview(v, g)) && !Fits(g) ==> Next(w, BeginPreview(v, g)).s == w.s
  {
    hide At;
  }

  /** While the camera screen is hidden a flip stamps no camera pixel on another screen: the
      panel shows the canvas as it was drawn, and the freed buffer receives the dirty
      rectangle, all of it, even inside the icon. */
  lemma HiddenFlip(w: World, o: Outcome, x: int, y: int)
    requires Inv(w) && Enabled(w, Flip(o)) && w.s.up && o.flipped && !w.s.visible && OnPanel(x, y)
    ensures var s, f, c := Next(w, Flip(o)).s, w.s.front, w.s.canvas;
            && Formed(s) && s.front == c && s.fb[c] == w.s.fb[c]
            && s.fb[f][y][x] == if o.copied && Inside(w.cycle.value, x, y) then w.s.fb[c][y][x] else w.s.fb[f][y][x]
  {
    hide At, Stamp, Overlay;
  }

  /** A refresh that touched nothing but the icon of a visible camera screen copies nothing
      forward: the freed buffer is left as it was. */
  lemma IconFlipCopiesNothing(w: World, o: Outcome)
    requires Inv(w) && Enabled(w, Flip(o)) && w.s.up && o.flipped && w.s.visible && RectInCam(w.cycle.value, w.s.geo)
    ensures var s := Next(w, Flip(o)).s; Formed(s) && s.front == w.s.canvas && s.canvas == w.s.front && s.fb[s.canvas] == w.s.fb[w.s.front]
  {
    hide At, Stamp, Overlay;
  }

  /** The two tests on rectangles compare the sets of pixels. */
  lemma RectTests(r: Rect, g: Geometry)
    requires r.left <= r.right && r.top <= r.bottom && Fits(g)
    ensures RectInCam(r, g) <==> forall x, y :: Inside(r, x, y) ==> InCam(g, x, y)
    ensures RectCoversCam(r, g) <==> forall x, y :: InCam(g, x, y) ==> Inside(r, x, y)
  {
    if forall x, y :: Inside(r, x, y) ==> InCam(g, x, y) {
      assert Inside(r, r.left, r.top) && Inside(r, r.right, r.bottom);
    }
    if forall x, y :: InCam(g, x, y) ==> Inside(r, x, y) {
      assert InCam(g, g.x, g.y) && InCam(g, g.x + g.w - 1, g.y + g.h - 1);
    }
  }

  /** What a completed draw of the camera pixelmap puts in the canvas, and that one which covers
      the icon makes the next flip need no correction. */
  lemma CamDrawPaints(w: World, clip: Rect, x: int, y: int)
    requires Inv(w) && Enabled(w, CamDraw(clip, true)) && w.s.armed && OnPanel(x, y)
    ensures var w', c := Next(w, CamDraw(clip, true)), w.s.canvas;
            && Formed(w'.s) && w'.s.fb[1 - c] == w.s.fb[1 - c]
            && w'.s.fb[c][y][x] == (if InCam(w.s.geo, x, y) && Inside(clip, x, y) then ViewAt(w.s, x, y) else w.s.fb[c][y][x])
            && (RectCoversCam(clip, w.s.geo) && w.s.up ==> Presents(w', Outcome(false, true, false)))
  {
    hide At, Stamp, Overlay;
  }
}
