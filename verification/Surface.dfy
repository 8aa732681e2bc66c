/**
 A surface as compositor/src/wdcomp.c keeps it: one row-major buffer of pixels,
 copied into and out of a row at a time. Each method is proved to do what the
 function of the same name in FrameSteps does.
 */
module SurfaceObject {
  import opened Bytes
  import opened Pictures
  import Steps = FrameSteps
  import opened FrameSteps

  class WdcSurface {
    var damage: array<Rect>
    var damageCount: nat
    var damageOverflow: bool
    var sentWidth: int
    var sentHeight: int
    var awaitingAck: bool
    var frameSentMs: int
    var frameInFlight: bool
    var pendingFrame: bool
    var pending: Rect
    var canvas: array?<Pixel>
    var canvasW: nat
    var canvasH: nat
    var announced: bool
    var wire: seq<Msg>

    ghost predicate Valid()
      reads this, damage, canvas
    {
      && damage.Length == WDC_MAX_DAMAGE && damageCount <= WDC_MAX_DAMAGE
      && (canvas != null ==> canvasW > 0 && canvasH > 0 && canvas.Length == RowStart(canvasH, canvasW))
    }

    ghost function Canvas(): Option<Picture>
      reads this, damage, canvas
      requires Valid()
    {
      if canvas == null then None
      else Some(PictureFields(canvasW, canvasH, RowsOf(canvas[..], canvasW, canvasH)))
    }

    ghost function View(): Surface
      reads this, damage, canvas
      requires Valid()
    {
      Surface(Canvas(), sentWidth, sentHeight, awaitingAck, frameInFlight, pendingFrame, pending,
              frameSentMs, announced, damage[..damageCount], damageOverflow, wire)
    }

    constructor ()
      ensures Valid() && View() == NewSurface && fresh(damage)
    {
      damage := new Rect[WDC_MAX_DAMAGE];
      damageCount, damageOverflow := 0, false;
      sentWidth, sentHeight, awaitingAck, frameSentMs, frameInFlight := 0, 0, false, 0, false;
      pendingFrame, pending, announced, wire := false, Rect(0, 0, 0, 0), false, [];
      canvas, canvasW, canvasH := null, 0, 0;
    }

    method AddDamage(d: Rect)
      requires Valid()
      modifies this, damage
      ensures Valid() && View() == Steps.AddDamage(old(View()), d)
      ensures damage == old(damage) && canvas == old(canvas)
    {
      if d.width <= 0 || d.height <= 0 { return; }
      if damageCount >= WDC_MAX_DAMAGE {
        damageOverflow := true;
        return;
      }
      damage[damageCount] := d;
      damageCount := damageCount + 1;
    }

    method DamageBounds(win: Rect, forceFull: bool) returns (r: Rect)
      requires Valid()
      ensures r == Steps.DamageBounds(damage[..damageCount], damageOverflow, win, forceFull)
    {
      var full := Rect(0, 0, win.width, win.height);
      if forceFull || damageOverflow || damageCount == 0 { return full; }
      var x0, y0, x1, y1 := INT32_MAX, INT32_MAX, 0, 0;
      var i := 0;
      while i < damageCount
        invariant 0 <= i <= damageCount
        invariant Hull(Box(x0, y0, x1, y1), damage[i..damageCount], win) == Hull(NO_BOX, damage[..damageCount], win)
      {
        var d := damage[i];
        assert damage[i..damageCount][1..] == damage[i + 1..damageCount];
        i := i + 1;
        var dx0, dy0 := d.x - win.x, d.y - win.y;
        var dx1, dy1 := dx0 + d.width, dy0 + d.height;
        if dx0 < 0 { dx0 := 0; }
        if dy0 < 0 { dy0 := 0; }
        if dx1 > win.width { dx1 := win.width; }
        if dy1 > win.height { dy1 := win.height; }
        if dx1 <= dx0 || dy1 <= dy0 { continue; }
        if dx0 < x0 { x0 := dx0; }
        if dy0 < y0 { y0 := dy0; }
        if dx1 > x1 { x1 := dx1; }
        if dy1 > y1 { y1 := dy1; }
      }
      if x1 <= x0 || y1 <= y0 { return full; }
      return Rect(x0, y0, x1 - x0, y1 - y0);
    }

    /** A canvas of this size, cleared unless it had the size already. */
    method FitCanvas(w: nat, h: nat)
      requires Valid() && w > 0 && h > 0
      modifies `canvas, `canvasW, `canvasH
      ensures Valid() && (canvas == old(canvas) || fresh(canvas))
      ensures View() == old(View()).(canvas := Some(KeptAt(old(Canvas()), w, h)))
    {
      hide RowsOf, RowStart, BlankRows;
      if canvas == null || canvasW != w || canvasH != h {
        RowStartIs(h, w);
        canvas := new Pixel[w * h](_ => CLEAR);
        canvasW, canvasH := w, h;
        ClearRows(canvas[..], w, h);
      }
    }

    /** Copies the rows of `rgba` to their places. */
    method DrawRows(d: Rect, rgba: array<Pixel>)
      requires Valid() && canvas != null && Fits(d, canvasW, canvasH)
      requires rgba.Length == RowStart(d.height, d.width) && rgba != canvas
      modifies canvas
      ensures RowsOf(canvas[..], canvasW, canvasH)
           == Blit(old(Canvas()).value, d, RowsOf(old(rgba[..]), d.width, d.height)).rows
    {
      var w, h := canvasW, canvasH;
      ghost var pix, kept := RowsOf(rgba[..], d.width, d.height), RowsOf(canvas[..], w, h);
      hide RowsOf, BlitRows, RowStart;
      NoRows(kept, d, pix, w, h);
      var y := 0;
      while y < d.height
        invariant 0 <= y <= d.height
        invariant rgba[..] == old(rgba[..])
        invariant RowsOf(canvas[..], w, h) == BlitRows(kept, d, pix, y, w, h)
      {
        BlitRow(kept, d, pix, y, w, h);
        assert pix[y][0..d.width] == pix[y];
        CopyRow(canvas, w, h, d.x, d.y + y, rgba, d.width, d.height, 0, y, d.width);
        y := y + 1;
      }
    }

    /** The canvas gets the size of the window, and the new pixels in their place. */
    method CanvasUpdate(d: Rect, w: nat, h: nat, rgba: array<Pixel>)
      requires Valid() && w > 0 && h > 0 && Fits(d, w, h)
      requires rgba.Length == RowStart(d.height, d.width) && rgba != canvas
      modifies `canvas, `canvasW, `canvasH, canvas
      ensures Valid() && (canvas == old(canvas) || fresh(canvas))
      ensures var pix := RowsOf(old(rgba[..]), d.width, d.height);
        View() == old(View()).(canvas := Some(Land(old(Canvas()), d, w, h, pix)))
    {
      FitCanvas(w, h);
      DrawRows(d, rgba);
    }

    /** The bookkeeping of a frame that has left. */
    method SendFrame(d: Rect, w: int, h: int, rgba: array<Pixel>, now: int)
      requires Valid() && w > 0 && h > 0 && Fits(d, w, h) && rgba.Length == RowStart(d.height, d.width)
      modifies `sentWidth, `sentHeight, `awaitingAck, `frameInFlight, `frameSentMs, `wire
      ensures sentWidth == w && sentHeight == h && awaitingAck && frameInFlight && frameSentMs == now
      ensures wire == old(wire) + [FrameMsg(FrameFields(d, w, h, RowsOf(rgba[..], d.width, d.height)))]
    {
      var frame: Frame := FrameFields(d, w, h, RowsOf(rgba[..], d.width, d.height));
      wire := wire + [FrameMsg(frame)];
      sentWidth, sentHeight := w, h;
      awaitingAck, frameInFlight, frameSentMs := true, true, now;
    }

    method EmitCanvasRect(rect: Rect, now: int)
      requires Valid()
      modifies this
      ensures Valid() && View() == Steps.EmitCanvasRect(old(View()), rect, now)
      ensures canvas == old(canvas) && damage == old(damage)
    {
      hide RowsOf, RowStart, Crop;
      if canvas == null { return; }
      var d := rect;
      if d.x < 0 { d := d.(x := 0); }
      if d.y < 0 { d := d.(y := 0); }
      if d.x + d.width > canvasW { d := d.(width := canvasW - d.x); }
      if d.y + d.height > canvasH { d := d.(height := canvasH - d.y); }
      if d.width <= 0 || d.height <= 0 { return; }
      EmitClamped(d, now);
    }

    method EmitClamped(d: Rect, now: int)
      requires Valid() && canvas != null && Fits(d, canvasW, canvasH)
      modifies `pendingFrame, `sentWidth, `sentHeight, `awaitingAck, `frameInFlight, `frameSentMs, `wire
      ensures Valid() && View() == old(View()).(
        pendingFrame := false, sentW := canvasW, sentH := canvasH, awaitingAck := true, inFlight := true,
        sentMs := now,
        wire := old(wire) + [FrameMsg(FrameFields(d, canvasW, canvasH, Crop(old(Canvas()).value, d)))])
    {
      hide Crop, RowsOf;
      var rgba := CopyOut(d);
      pendingFrame := false;
      SendFrame(d, canvasW, canvasH, rgba, now);
    }

    /** A rectangle of the canvas, row by row. */
    method CopyOut(d: Rect) returns (rgba: array<Pixel>)
      requires Valid() && canvas != null && Fits(d, canvasW, canvasH)
      ensures fresh(rgba) && rgba.Length == RowStart(d.height, d.width)
      ensures RowsOf(rgba[..], d.width, d.height) == Crop(Canvas().value, d)
    {
      var w, h := canvasW, canvasH;
      RowStartIs(d.height, d.width);
      rgba := new Pixel[d.width * d.height](_ => CLEAR);
      ghost var rows := RowsOf(canvas[..], w, h);
      hide RowsOf, RowStart;
      var y := 0;
      while y < d.height
        invariant 0 <= y <= d.height
        invariant canvas[..] == old(canvas[..])
        invariant RowsOf(rgba[..], d.width, d.height)[..y] == CropRows(rows, d, y, w, h)
      {
        ghost var out, seg := RowsOf(rgba[..], d.width, d.height), rows[d.y + y][d.x..d.x + d.width];
        assert Splice(out[y], 0, seg) == seg;
        CopyRow(rgba, d.width, d.height, 0, y, canvas, w, h, d.x, d.y + y, d.width);
        y := y + 1;
      }
    }

    method ResetDamage()
      requires Valid()
      modifies `damageCount, `damageOverflow
      ensures Valid() && View() == old(View()).(damage := [], overflow := false)
    {
      damageCount, damageOverflow := 0, false;
    }

    method Announce()
      requires Valid()
      modifies `announced
      ensures Valid() && View() == old(View()).(announced := true)
    {
      announced := true;
    }

    /** What of a window a commit draws, and its pixels. */
    method ConvertDamaged(buf: Picture, win: Rect) returns (d: Rect, rgba: array<Pixel>)
      requires Valid() && WindowOf(win, buf)
      ensures d == Drawn(View(), win) && Fits(d, win.width, win.height)
      ensures fresh(rgba) && rgba.Length == RowStart(d.height, d.width)
      ensures RowsOf(rgba[..], d.width, d.height) == Crop(buf, Shifted(d, win))
    {
      hide RowsOf, Crop, RowStart;
      var resized := sentWidth != win.width || sentHeight != win.height;
      d := DamageBounds(win, resized);
      DrawnFits(damage[..damageCount], damageOverflow, win, resized);
      rgba := Convert(buf, Shifted(d, win));
    }

    /** Copies what the commit drew onto the canvas. */
    method LandCommit(buf: Picture, win: Rect) returns (d: Rect)
      requires Valid() && WindowOf(win, buf)
      modifies this, canvas
      ensures Valid() && View() == Landed(old(View()), buf, win) && d == Drawn(old(View()), win)
      ensures damage == old(damage) && (canvas == old(canvas) || fresh(canvas))
    {
      Announce();
      var rgba;
      d, rgba := ConvertDamaged(buf, win);
      CanvasUpdate(d, win.width, win.height, rgba);
      ResetDamage();
    }

    /** A commit with a buffer, over the pipe. */
    method EmitFrameIpc(buf: Picture, win: Rect, now: int)
      requires Valid() && WindowOf(win, buf)
      modifies this, canvas
      ensures Valid() && View() == Steps.Commit(old(View()), buf, win, now)
      ensures damage == old(damage) && (canvas == old(canvas) || fresh(canvas))
    {
      var d := LandCommit(buf, win);
      if frameInFlight {
        Hold(d);
        return;
      }
      EmitCanvasRect(d, now);
    }

    /** Widens what is pending by `d`. */
    method Hold(d: Rect)
      requires Valid()
      modifies `pending, `pendingFrame
      ensures Valid() && View() == Steps.Hold(old(View()), d)
    {
      if pendingFrame {
        var x1, y1 := pending.x + pending.width, pending.y + pending.height;
        if d.x + d.width > x1 { x1 := d.x + d.width; }
        if d.y + d.height > y1 { y1 := d.y + d.height; }
        if d.x < pending.x { pending := pending.(x := d.x); }
        if d.y < pending.y { pending := pending.(y := d.y); }
        pending := pending.(width := x1 - pending.x, height := y1 - pending.y);
      } else {
        pending := d;
        pendingFrame := true;
      }
    }

    /** The pixels of the client's buffer within `d`, row after row. */
    method Convert(buf: Picture, d: Rect) returns (rgba: array<Pixel>)
      requires Fits(d, buf.w, buf.h)
      ensures fresh(rgba) && rgba.Length == RowStart(d.height, d.width)
      ensures RowsOf(rgba[..], d.width, d.height) == Crop(buf, d)
    {
      RowStartIs(d.height, d.width);
      rgba := new Pixel[d.width * d.height](_ => CLEAR);
      var y := 0;
      while y < d.height
        invariant 0 <= y <= d.height
        invariant RowsOf(rgba[..], d.width, d.height)[..y] == CropRows(buf.rows, d, y, buf.w, buf.h)
      {
        var seg := buf.rows[d.y + y][d.x..d.x + d.width];
        ghost var out := RowsOf(rgba[..], d.width, d.height);
        assert Splice(out[y], 0, seg) == seg;
        PutRow(rgba, d.width, d.height, y, seg);
        y := y + 1;
      }
    }

    method ReleaseFrames()
      requires Valid()
      modifies `awaitingAck
      ensures Valid() && View() == Steps.ReleaseFrames(old(View()))
    {
      awaitingAck := false;
    }

    method Acknowledged(now: int)
      requires Valid()
      modifies this
      ensures Valid() && View() == Steps.Acknowledged(old(View()), now)
      ensures canvas == old(canvas) && damage == old(damage)
    {
      frameInFlight := false;
      ReleaseFrames();
      if pendingFrame { EmitCanvasRect(pending, now); }
    }

    method CheckStale(now: int)
      requires Valid()
      modifies this
      ensures Valid() && View() == Steps.CheckStale(old(View()), now)
      ensures canvas == old(canvas) && damage == old(damage)
    {
      var age := (now - frameSentMs) % TWO_32;
      if frameInFlight && age >= GIVE_UP_MS {
        Acknowledged(now);
      } else if awaitingAck && age >= RELEASE_MS {
        ReleaseFrames();
      }
    }

    method Hide()
      requires Valid()
      modifies `announced, `canvas, `canvasW, `canvasH, `sentWidth, `sentHeight, `pendingFrame, `wire
      ensures Valid() && View() == Steps.Hide(old(View()))
    {
      hide RowsOf, RowStart;
      if !announced { return; }
      announced := false;
      DropCanvas();
      wire := wire + [HiddenMsg];
    }

    /** Forgets the canvas, the size last sent and what was pending. */
    method DropCanvas()
      requires Valid()
      modifies `canvas, `canvasW, `canvasH, `sentWidth, `sentHeight, `pendingFrame
      ensures Valid()
      ensures View() == old(View()).(canvas := None, sentW := 0, sentH := 0, pendingFrame := false)
    {
      hide RowsOf, RowStart;
      canvas, canvasW, canvasH := null, 0, 0;
      NothingSent();
    }

    method NothingSent()
      requires Valid()
      modifies `sentWidth, `sentHeight, `pendingFrame
      ensures Valid()
      ensures View() == old(View()).(sentW := 0, sentH := 0, pendingFrame := false)
    {
      hide RowsOf, RowStart;
      sentWidth, sentHeight, pendingFrame := 0, 0, false;
    }

    method Resync(now: int)
      requires Valid()
      modifies this
      ensures Valid() && View() == Steps.Resync(old(View()), now)
      ensures canvas == old(canvas) && damage == old(damage)
    {
      if !announced { return; }
      var full := Rect(0, 0, canvasW, canvasH);
      EmitCanvasRect(full, now);
    }
  }

  method PutRow(dst: array<Pixel>, w: nat, h: nat, y: nat, row: seq<Pixel>)
    requires dst.Length == RowStart(h, w) && y < h && |row| == w
    modifies dst
    ensures RowsOf(dst[..], w, h) == old(RowsOf(dst[..], w, h))[y := Splice(old(RowsOf(dst[..], w, h))[y], 0, row)]
  {
    RowStartIs(y, w);
    RowWrite(dst[..], w, h, y, 0, row);
    forall x | 0 <= x < w { dst[y * w + x] := row[x]; }
    assert dst[..] == Splice(old(dst[..]), y * w, row);
  }

  lemma {:induction false} ClearRows(flat: seq<Pixel>, w: nat, h: nat)
    requires |flat| == RowStart(h, w) && forall i :: 0 <= i < |flat| ==> flat[i] == CLEAR
    ensures RowsOf(flat, w, h) == BlankRows(w, h)
    decreases h
  {
    if h > 0 {
      var n := RowStart(h - 1, w);
      ClearRows(flat[..n], w, h - 1);
      assert flat[n..] == BlankRows(w, h)[h - 1];
      assert BlankRows(w, h) == BlankRows(w, h - 1) + [flat[n..]];
    }
  }

  /** One more row of a blit. */
  lemma NoRows(rows: Rows, d: Rect, pix: Rows, w: int, h: int)
    requires Shaped(rows, w, h) && Fits(d, w, h) && Shaped(pix, d.width, d.height)
    ensures BlitRows(rows, d, pix, 0, w, h) == rows
  {
  }

  lemma BlitRow(rows: Rows, d: Rect, pix: Rows, y: nat, w: int, h: int)
    requires Shaped(rows, w, h) && Fits(d, w, h) && Shaped(pix, d.width, d.height) && y < d.height
    ensures var r := BlitRows(rows, d, pix, y, w, h);
      BlitRows(rows, d, pix, y + 1, w, h) == r[d.y + y := Splice(r[d.y + y], d.x, pix[y])]
  {
  }
}
