/** The display driver's buffers and flags as guix_display.c updates them: two frame buffers
    and the registered view buffer as arrays in place, DMA2D transfers as whole-block
    copies that complete or fail. Each method is proved against the functions of
    `Coherence`. */
module CoherenceDevice {
  import opened Machine
  import opened Coherence

  /** The pixels of a buffer. */
  ghost function Picture(a: array2<u16>): (f: Image)
    reads a
    ensures Sized(f, a.Length1, a.Length0)
    ensures forall y, x :: 0 <= y < a.Length0 && 0 <= x < a.Length1 ==> f[y][x] == a[y, x]
  {
    seq(a.Length0, y requires 0 <= y < a.Length0 reads a =>
      seq(a.Length1, x requires 0 <= x < a.Length1 reads a => a[y, x]))
  }

  /** A DMA2D copy of a @p w by @p h block: it completes (@p ok) or fails and is aborted. */
  method Blit(dst: array2<u16>, dx: nat, dy: nat, src: array2<u16>, sx: nat, sy: nat, w: nat, h: nat, ok: bool)
    returns (done: bool)
    requires dst != src
    requires dx + w <= dst.Length1 && dy + h <= dst.Length0 && sx + w <= src.Length1 && sy + h <= src.Length0
    modifies dst
    ensures done <==> ok && w > 0 && h > 0
    ensures forall y, x :: 0 <= y < dst.Length0 && 0 <= x < dst.Length1 ==>
              dst[y, x] == if done && dx <= x < dx + w && dy <= y < dy + h then src[y - dy + sy, x - dx + sx]
                           else old(dst[y, x])
  {
    if w == 0 || h == 0 || !ok { return false; }
    forall y, x | dy <= y < dy + h && dx <= x < dx + w {
      dst[y, x] := src[y - dy + sy, x - dx + sx];
    }
    done := true;
  }

  lemma SamePicture(a: array2<u16>, f: Image)
    requires Sized(f, a.Length1, a.Length0)
    requires forall y, x :: 0 <= y < a.Length0 && 0 <= x < a.Length1 ==> a[y, x] == f[y][x]
    ensures Picture(a) == f
  {
    SameImage(Picture(a), f, a.Length1, a.Length0);
  }

  predicate Empty(r: Rect) { r.left > r.right || r.top > r.bottom }

  /** GUIX clips a draw to the panel and to the pixelmap. */
  predicate Clipped(clip: Rect, xpos: int, ypos: int, w: nat, h: nat) {
    Empty(clip) || (0 <= clip.left && clip.right < WIDTH && 0 <= clip.top && clip.bottom < HEIGHT
                    && xpos <= clip.left && clip.right < xpos + w && ypos <= clip.top && clip.bottom < ypos + h)
  }

  /** A pixelmap of @p w by @p h pixels at a position, as an image of the panel. */
  function Placed(p: Image, w: nat, h: nat, xpos: int, ypos: int): (f: Image)
    requires Sized(p, w, h)
    ensures Sized(f, WIDTH, HEIGHT)
    ensures forall x, y :: OnPanel(x, y) && 0 <= y - ypos < h && 0 <= x - xpos < w ==> f[y][x] == p[y - ypos][x - xpos]
  {
    seq(HEIGHT, y requires 0 <= y < HEIGHT =>
      seq(WIDTH, x requires 0 <= x < WIDTH =>
        if 0 <= y - ypos < h && 0 <= x - xpos < w then p[y - ypos][x - xpos] else 0))
  }

  lemma StampIsPlaced(f: Image, view: Image, g: Geometry, clip: Rect)
    requires Sized(f, WIDTH, HEIGHT) && Fits(g) && Sized(view, g.w, g.h) && Clipped(clip, g.x, g.y, g.w, g.h)
    ensures Stamp(f, view, g, clip) == Overlay(f, Placed(view, g.w, g.h, g.x, g.y), clip)
  {
    hide Stamp, Overlay, Placed;
    SameImage(Stamp(f, view, g, clip), Overlay(f, Placed(view, g.w, g.h, g.x, g.y), clip), WIDTH, HEIGHT);
  }

  lemma NothingDrawn(f: Image, p: Image, clip: Rect)
    requires Sized(f, WIDTH, HEIGHT) && Sized(p, WIDTH, HEIGHT) && Empty(clip)
    ensures Overlay(f, p, clip) == f
  {
    hide Overlay;
    SameImage(Overlay(f, p, clip), f, WIDTH, HEIGHT);
  }

  /** Drawing the camera pixelmap at the icon is drawing its pixels and noting a repaint. */
  lemma CamDrawIs(s: Screen, clip: Rect, ok: bool)
    requires Shaped(s) && s.armed && Clipped(clip, s.geo.x, s.geo.y, s.geo.w, s.geo.h)
    ensures DrawCam(s, clip, ok) ==
            if !ok then s
            else
              var d := DrawOther(s, Placed(s.view.value, s.geo.w, s.geo.h, s.geo.x, s.geo.y), clip);
              if RectCoversCam(clip, s.geo) then d.(stale := d.stale[1 - s.front := false]) else d
  {
    hide Stamp, Overlay, Placed, Clipped, RectCoversCam;
    StampIsPlaced(s.fb[s.canvas], s.view.value, s.geo, clip);
  }

  /** A clip of a pixelmap as large as the icon covers the icon only if it is drawn there. */
  lemma CoversOnlyThere(clip: Rect, xpos: int, ypos: int, g: Geometry)
    requires Clipped(clip, xpos, ypos, g.w, g.h) && Fits(g) && RectCoversCam(clip, g)
    ensures xpos == g.x && ypos == g.y && !Empty(clip)
  {
  }

  class Display {
    const fb0: array2<u16>
    const fb1: array2<u16>
    var front: nat
    var canvas: nat
    var view: array2?<u16>
    var geo: Geometry
    var stale0: bool
    var stale1: bool
    var visible: bool
    var armed: bool
    /** No register reload ever got stuck (`ltdc_fault` unset). */
    var up: bool

    ghost predicate Valid()
      reads this
    {
      && fb0 != fb1 && fb0 != view && fb1 != view
      && fb0.Length0 == fb1.Length0 == HEIGHT && fb0.Length1 == fb1.Length1 == WIDTH
      && front < 2 && canvas < 2 && Fits(geo)
      && (view != null ==> view.Length0 == geo.h && view.Length1 == geo.w)
      && (armed ==> view != null)
    }

    /** The abstract screen. */
    ghost function State(): (s: Screen)
      requires Valid()
      reads this, fb0, fb1, view
      ensures Shaped(s)
    {
      Screen(front, canvas, [Picture(fb0), Picture(fb1)], if view == null then None else Some(Picture(view)), geo,
             [stale0, stale1], visible, armed, up)
    }

    /** Display start: the first buffer on screen, the canvas on the second. */
    constructor (a: array2<u16>, b: array2<u16>, g: Geometry)
      requires a != b && a.Length0 == b.Length0 == HEIGHT && a.Length1 == b.Length1 == WIDTH && Fits(g)
      ensures Valid() && fb0 == a && fb1 == b
      ensures State() == Screen(0, 1, [Picture(a), Picture(b)], None, g, [false, false], false, false, true)
    {
      fb0, fb1, front, canvas, view, geo := a, b, 0, 1, null, g;
      stale0, stale1, visible, armed, up := false, false, false, false, true;
    }

    /** The buffer with index @p i. */
    function Buffer(i: nat): (b: array2<u16>)
      requires i < 2
      ensures b in {fb0, fb1}
    {
      if i == 0 then fb0 else fb1
    }

    method MarkStale()
      requires Valid()
      modifies `stale0, `stale1
      ensures Valid() && State() == BothStale(old(State()))
    {
      stale0, stale1 := true, true;
    }

    method PreviewBegin(buffer: array2<u16>, g: Geometry) returns (ok: bool)
      requires Valid() && buffer.Length0 == g.h && buffer.Length1 == g.w && buffer != fb0 && buffer != fb1
      modifies `view, `geo, `stale0, `stale1, `armed
      ensures Valid() && State() == Begin(old(State()), Picture(buffer), g)
      ensures ok <==> g.w > 0 && g.h > 0 && g.x + g.w <= 480 && g.y + g.h <= 272
      ensures ok ==> view == buffer && geo == g && armed && stale0 && stale1
      ensures !ok ==> view == old(view) && geo == old(geo) && armed == old(armed) && stale0 == old(stale0) && stale1 == old(stale1)
    {
      if g.w == 0 || g.h == 0 || g.x + g.w > WIDTH || g.y + g.h > HEIGHT { return false; }
      view, geo, armed := buffer, g, true;
      MarkStale();
      ok := true;
    }

    method PreviewEnd()
      requires Valid()
      modifies `view, `armed, `visible
      ensures Valid() && State() == End(old(State()))
      ensures view == null && !armed && !visible
    {
      armed, visible, view := false, false, null;
    }

    method Show(on: bool)
      requires Valid()
      modifies `visible, `stale0, `stale1
      ensures Valid() && State() == SetVisible(old(State()), on)
      ensures visible == on && stale0 == (on || old(stale0)) && stale1 == (on || old(stale1))
    {
      visible := on;
      if on { MarkStale(); }
    }

    method ViewStore(src: array2<u16>, ok: bool) returns (done: bool)
      requires Valid() && src != view && src.Length0 == geo.h && src.Length1 == geo.w
      modifies view, `stale0, `stale1
      ensures Valid() && State() == Store(old(State()), old(Picture(src)), ok)
      ensures done <==> view != null && armed && ok
      ensures done ==> forall y, x :: 0 <= y < geo.h && 0 <= x < geo.w ==> view[y, x] == old(src[y, x])
      ensures !done && view != null ==> forall y, x :: 0 <= y < geo.h && 0 <= x < geo.w ==> view[y, x] == old(view[y, x])
      ensures stale0 == (done || old(stale0)) && stale1 == (done || old(stale1))
    {
      if view == null || !armed { return false; }
      done := Blit(view, 0, 0, src, 0, 0, geo.w, geo.h, ok);
      SamePicture(view, if done then old(Picture(src)) else old(Picture(view)));
      if done { MarkStale(); }
    }

    /** The corrective copy: DMA2D, or row by row by the CPU when the transfer fails - unless
        the aborted engine is still running (@p wedged). */
    method CamRectRefresh(dst: array2<u16>, ok: bool, wedged: bool) returns (rc: bool)
      requires Valid() && dst in {fb0, fb1}
      modifies dst
      ensures rc == (view != null && (ok || !wedged))
      ensures Picture(dst) == if rc then Stamp(old(Picture(dst)), old(Picture(view)), geo, PANEL) else old(Picture(dst))
      ensures view != null ==> Picture(view) == old(Picture(view))
      ensures forall j, i :: 0 <= j < HEIGHT && 0 <= i < WIDTH ==>
                dst[j, i] == if rc && InCam(geo, i, j) then view[j - geo.y, i - geo.x] else old(dst[j, i])
    {
      hide Stamp, Picture;
      if view == null { return false; }
      var done := Blit(dst, geo.x, geo.y, view, 0, 0, geo.w, geo.h, ok);
      if !done {
        if wedged {
          SamePicture(dst, old(Picture(dst)));
          return false;
        }
        RowCopy(dst);
      }
      SamePicture(dst, Stamp(old(Picture(dst)), Picture(view), geo, PANEL));
      rc := true;
    }

    /** The CPU's copy of the view, row by row. */
    method RowCopy(dst: array2<u16>)
      requires Valid() && dst in {fb0, fb1} && view != null
      modifies dst
      ensures forall j, i :: 0 <= j < HEIGHT && 0 <= i < WIDTH ==>
                dst[j, i] == if InCam(geo, i, j) then view[j - geo.y, i - geo.x] else old(dst[j, i])
    {
      var y := 0;
      while y < geo.h
        invariant y <= geo.h
        invariant forall j, i :: 0 <= j < HEIGHT && 0 <= i < WIDTH ==>
                    dst[j, i] == if InCam(geo, i, j) && j < geo.y + y then view[j - geo.y, i - geo.x] else old(dst[j, i])
      {
        forall x | 0 <= x < geo.w { dst[geo.y + y, geo.x + x] := view[y, x]; }
        y := y + 1;
      }
    }

    /** The camera screen is on display and the buffer to be shown is behind the view. */
    predicate Due()
      reads this
    {
      visible && view != null && (if front == 1 then stale0 else stale1)
    }

    /** The part of the toggle before the flip. */
    method CorrectBack(ok: bool, wedged: bool)
      requires Valid() && canvas == 1 - front
      modifies `stale0, `stale1, fb0, fb1
      ensures Valid() && State() == Correct(old(State()), ok || !wedged)
      ensures forall j, i :: 0 <= j < HEIGHT && 0 <= i < WIDTH ==>
                && Buffer(front)[j, i] == old(Buffer(front)[j, i])
                && Buffer(canvas)[j, i] == if old(Due()) && (ok || !wedged) && InCam(geo, i, j) then view[j - geo.y, i - geo.x]
                                           else old(Buffer(canvas)[j, i])
    {
      hide Picture, Stamp;
      if visible {
        var cur := 1 - front;
        if cur == 0 && stale0 {
          var rc := CamRectRefresh(fb0, ok, wedged);
          if rc { stale0 := false; }
        } else if cur == 1 && stale1 {
          var rc := CamRectRefresh(fb1, ok, wedged);
          if rc { stale1 := false; }
        }
      }
    }

    /** Copy the dirty rectangle, clipped to the panel, from the shown buffer. */
    method CopyForward(dirty: Rect, copied: bool)
      requires Valid() && canvas == 1 - front
      modifies Buffer(canvas)
      ensures Picture(Buffer(canvas)) ==
              if copied then Overlay(old(Picture(Buffer(canvas))), old(Picture(Buffer(front))), dirty)
              else old(Picture(Buffer(canvas)))
      ensures forall j, i :: 0 <= j < HEIGHT && 0 <= i < WIDTH ==>
                Buffer(canvas)[j, i] == if copied && Inside(dirty, i, j) then Buffer(front)[j, i] else old(Buffer(canvas)[j, i])
    {
      var back, shown := Buffer(canvas), Buffer(front);
      var x, y := if dirty.left < 0 then 0 else dirty.left, if dirty.top < 0 then 0 else dirty.top;
      var right := if dirty.right > WIDTH - 1 then WIDTH - 1 else dirty.right;
      var bottom := if dirty.bottom > HEIGHT - 1 then HEIGHT - 1 else dirty.bottom;
      var w, h := right - x + 1, bottom - y + 1;
      if w > 0 && h > 0 {
        var done := Blit(back, x, y, shown, x, y, w, h, copied);
      }
      SamePicture(back, if copied then Overlay(old(Picture(back)), Picture(shown), dirty) else old(Picture(back)));
    }

    /** The part of the toggle after the flip. */
    method Repoint(dirty: Rect, copied: bool)
      requires Valid() && canvas == 1 - front
      modifies `front, `canvas, Buffer(front)
      ensures Valid() && State() == Forward(old(State()), dirty, copied)
      ensures front == old(canvas) && canvas == old(front)
      ensures forall j, i :: 0 <= j < HEIGHT && 0 <= i < WIDTH ==>
                && Buffer(front)[j, i] == old(Buffer(canvas)[j, i])
                && Buffer(canvas)[j, i] == if copied && !(visible && RectInCam(dirty, geo)) && Inside(dirty, i, j)
                                           then Buffer(front)[j, i] else old(Buffer(front)[j, i])
    {
      hide Picture, Overlay, RectInCam;
      SwapBuffers();
      if visible && RectInCam(dirty, geo) { return; }
      CopyForward(dirty, copied);
    }

    method SwapBuffers()
      requires Valid() && canvas == 1 - front
      modifies `front, `canvas
      ensures Valid() && canvas == 1 - front && front == old(canvas)
      ensures State() == old(State()).(front := old(canvas), canvas := old(front))
    {
      hide Picture;
      front := 1 - front;
      canvas := 1 - front;
    }

    /** `guix_buffer_toggle`: @p ok and @p wedged, the corrective transfer; @p flipped, the flip
        takes effect, for otherwise the display is latched down; @p copied, the copy of the
        dirty rectangle completes. */
    method BufferToggle(dirty: Rect, ok: bool, wedged: bool, flipped: bool, copied: bool)
      requires Valid()
      modifies this, fb0, fb1
      ensures Valid() && view == old(view)
      ensures State() == Toggle(old(State()), dirty, Outcome(ok || !wedged, flipped, copied))
      ensures up == (old(up) && (old(canvas == front) || flipped))
      ensures old(up && canvas != front) && flipped ==> front == old(canvas) && canvas == old(front)
      ensures !(old(up && canvas != front) && flipped) ==> front == old(front) && canvas == old(canvas)
      ensures old(up && canvas != front) ==> forall j, i :: 0 <= j < HEIGHT && 0 <= i < WIDTH ==>
                var shown, freed := old(Buffer(canvas)), old(Buffer(front));
                && shown[j, i] == (if old(Due()) && (ok || !wedged) && InCam(geo, i, j) then view[j - geo.y, i - geo.x]
                                   else old(Buffer(canvas)[j, i]))
                && freed[j, i] == (if flipped && copied && !(visible && RectInCam(dirty, geo)) && Inside(dirty, i, j)
                                   then shown[j, i] else old(Buffer(front)[j, i]))
    {
      hide Picture, Correct, Forward;
      if !up || canvas != 1 - front { return; }
      CorrectBack(ok, wedged);
      if !flipped {
        up := false;
        return;
      }
      Repoint(dirty, copied);
    }

    /** The clipped part of a pixelmap, blitted into the canvas. */
    method ClipBlit(pixels: array2<u16>, xpos: int, ypos: int, clip: Rect, ok: bool) returns (done: bool)
      requires Valid() && pixels !in {fb0, fb1} && Clipped(clip, xpos, ypos, pixels.Length1, pixels.Length0)
      modifies Buffer(canvas)
      ensures done <==> ok && !Empty(clip)
      ensures Picture(Buffer(canvas)) ==
              if ok then Overlay(old(Picture(Buffer(canvas))), Placed(Picture(pixels), pixels.Length1, pixels.Length0, xpos, ypos), clip)
              else old(Picture(Buffer(canvas)))
      ensures forall j, i :: 0 <= j < HEIGHT && 0 <= i < WIDTH ==>
                Buffer(canvas)[j, i] == if ok && Inside(clip, i, j) then pixels[j - ypos, i - xpos] else old(Buffer(canvas)[j, i])
    {
      hide Picture, Overlay, Placed;
      var w, h := clip.right - clip.left + 1, clip.bottom - clip.top + 1;
      var back := Buffer(canvas);
      ghost var placed := Placed(Picture(pixels), pixels.Length1, pixels.Length0, xpos, ypos);
      if w <= 0 || h <= 0 {
        NothingDrawn(Picture(back), placed, clip);
        return false;
      }
      done := Blit(back, clip.left, clip.top, pixels, clip.left - xpos, clip.top - ypos, w, h, ok);
      SamePicture(back, if done then Overlay(old(Picture(back)), placed, clip) else old(Picture(back)));
    }

    /** The same, as a drawing into the canvas. */
    method ClipDraw(pixels: array2<u16>, xpos: int, ypos: int, clip: Rect, ok: bool) returns (done: bool)
      requires Valid() && pixels !in {fb0, fb1} && Clipped(clip, xpos, ypos, pixels.Length1, pixels.Length0)
      modifies Buffer(canvas)
      ensures Valid() && done == (ok && !Empty(clip)) && Picture(pixels) == old(Picture(pixels))
      ensures State() == if ok then DrawOther(old(State()), Placed(Picture(pixels), pixels.Length1, pixels.Length0, xpos, ypos), clip)
                         else old(State())
      ensures forall j, i :: 0 <= j < HEIGHT && 0 <= i < WIDTH ==>
                Buffer(canvas)[j, i] == if ok && Inside(clip, i, j) then pixels[j - ypos, i - xpos] else old(Buffer(canvas)[j, i])
    {
      hide Picture, Overlay, Placed, Clipped, Empty;
      done := ClipBlit(pixels, xpos, ypos, clip, ok);
    }

    /** A completed copy that covers the icon makes the back buffer up to date. */
    method NoteRepaint(clip: Rect)
      requires Valid()
      modifies `stale0, `stale1
      ensures Valid()
      ensures var s := old(State()); State() == if RectCoversCam(clip, geo) then s.(stale := s.stale[1 - front := false]) else s
      ensures stale0 == (old(stale0) && !(RectCoversCam(clip, geo) && front == 1))
      ensures stale1 == (old(stale1) && !(RectCoversCam(clip, geo) && front == 0))
    {
      hide Picture;
      if RectCoversCam(clip, geo) {
        if front == 1 { stale0 := false; } else { stale1 := false; }
      }
    }

    /** `guix_pixelmap_draw` for an opaque RGB565 pixelmap. The camera pixelmap is recognised
        by its data pointer alone: drawn anywhere but at the icon it is a pixelmap like any
        other, because its clip cannot cover the icon. */
    method PixelmapDraw(pixels: array2<u16>, xpos: int, ypos: int, clip: Rect, ok: bool)
      requires Valid() && pixels !in {fb0, fb1} && Clipped(clip, xpos, ypos, pixels.Length1, pixels.Length0)
      modifies `stale0, `stale1, Buffer(canvas)
      ensures Valid() && view == old(view)
      ensures State() == if armed && pixels == view && xpos == geo.x && ypos == geo.y then DrawCam(old(State()), clip, ok)
                         else if ok then DrawOther(old(State()), Placed(old(Picture(pixels)), pixels.Length1, pixels.Length0, xpos, ypos), clip)
                         else old(State())
      ensures forall j, i :: 0 <= j < HEIGHT && 0 <= i < WIDTH ==>
                Buffer(canvas)[j, i] == if ok && Inside(clip, i, j) then pixels[j - ypos, i - xpos] else old(Buffer(canvas)[j, i])
      ensures var repainted := armed && pixels == view && ok && RectCoversCam(clip, geo);
              stale0 == (old(stale0) && !(repainted && front == 1)) && stale1 == (old(stale1) && !(repainted && front == 0))
    {
      hide Stamp, Overlay, Picture, Placed, RectCoversCam, Clipped, Empty, DrawCam, DrawOther;
      if pixels == view && RectCoversCam(clip, geo) { CoversOnlyThere(clip, xpos, ypos, geo); }
      if armed && pixels == view && xpos == geo.x && ypos == geo.y { CamDrawIs(State(), clip, ok); }
      var done := ClipDraw(pixels, xpos, ypos, clip, ok);
      if armed && pixels == view {
        if done { NoteRepaint(clip); }
      }
    }
  }
}
