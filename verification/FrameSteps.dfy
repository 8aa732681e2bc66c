/**
 A surface of the compositor and the frames it sends, compositor/src/wdcomp.c,
 as a state and one function per event. Surface.dfy has the surface as it is
 kept, with its pixels in one buffer.
 */
module FrameSteps {
  import opened Bytes
  import opened Pictures

  const WDC_MAX_DAMAGE: nat := 32
  const INT32_MAX: int := 0x7fff_ffff
  const GIVE_UP_MS: int := 30000
  const RELEASE_MS: int := 2000

  /** Pixels for a rectangle, and how large the whole picture is. */
  datatype FrameFields = FrameFields(d: Rect, fullW: int, fullH: int, pix: Rows)
  type Frame = f: FrameFields | f.fullW > 0 && f.fullH > 0 && Fits(f.d, f.fullW, f.fullH)
                             && Shaped(f.pix, f.d.width, f.d.height)
    witness FrameFields(Rect(0, 0, 1, 1), 1, 1, [[CLEAR]])

  /** What goes down the pipe to the shell. */
  datatype Msg = FrameMsg(frame: Frame) | HiddenMsg

  datatype Surface = Surface(
    canvas: Option<Picture>,
    sentW: int,
    sentH: int,
    awaitingAck: bool,
    inFlight: bool,
    pendingFrame: bool,
    pending: Rect,
    sentMs: int,
    announced: bool,
    damage: seq<Rect>,
    overflow: bool,
    wire: seq<Msg>)

  const NewSurface := Surface(None, 0, 0, false, false, false, Rect(0, 0, 0, 0), 0, false, [], false, [])

  /* ---- Damage ---- */

  /** Corners of a box; empty while `x1 <= x0`. */
  datatype Box = Box(x0: int, y0: int, x1: int, y1: int)

  const NO_BOX := Box(INT32_MAX, INT32_MAX, 0, 0)

  /** `d`, in the buffer, as much of it as lies in the window, from the window's corner. */
  function Clip(d: Rect, win: Rect): Box {
    Box(Max(0, d.x - win.x), Max(0, d.y - win.y),
        Min(win.width, d.x - win.x + d.width), Min(win.height, d.y - win.y + d.height))
  }

  predicate Empty(b: Box) {
    b.x1 <= b.x0 || b.y1 <= b.y0
  }

  /** The smallest box around `b` and what of the damage lies in the window. */
  function Hull(b: Box, damage: seq<Rect>, win: Rect): Box
    decreases |damage|
  {
    if damage == [] then b else Hull(Widened(b, Clip(damage[0], win)), damage[1..], win)
  }

  function Widened(b: Box, c: Box): Box {
    if Empty(c) then b
    else Box(Min(b.x0, c.x0), Min(b.y0, c.y0), Max(b.x1, c.x1), Max(b.y1, c.y1))
  }

  function WholeOf(win: Rect): Rect {
    Rect(0, 0, win.width, win.height)
  }

  function DamageBounds(damage: seq<Rect>, overflow: bool, win: Rect, forceFull: bool): Rect {
    if forceFull || overflow || damage == [] then WholeOf(win)
    else
      var b := Hull(NO_BOX, damage, win);
      if Empty(b) then WholeOf(win) else Rect(b.x0, b.y0, b.x1 - b.x0, b.y1 - b.y0)
  }

  function AddDamage(s: Surface, d: Rect): Surface {
    if d.width <= 0 || d.height <= 0 then s
    else if |s.damage| >= WDC_MAX_DAMAGE then s.(overflow := true)
    else s.(damage := s.damage + [d])
  }

  /* ---- Frames ---- */

  /** The kept copy of a window of this size; a cleared one when the size is new. */
  function KeptAt(canvas: Option<Picture>, w: int, h: int): (p: Picture)
    requires w > 0 && h > 0
    ensures p.w == w && p.h == h
  {
    if canvas.Some? && canvas.value.w == w && canvas.value.h == h then canvas.value else Blank(w, h)
  }

  /** A canvas of that size after `pix` is drawn on it; a canvas of another size starts clear. */
  function Land(canvas: Option<Picture>, d: Rect, w: int, h: int, pix: Rows): Picture
    requires w > 0 && h > 0 && Fits(d, w, h) && Shaped(pix, d.width, d.height)
  {
    Blit(KeptAt(canvas, w, h), d, pix)
  }

  /** A rectangle cut down to what of it lies within a picture, as emit_canvas_rect does. */
  function Clamp(d: Rect, w: int, h: int): Rect {
    var x, y := Max(0, d.x), Max(0, d.y);
    Rect(x, y, if x + d.width > w then w - x else d.width, if y + d.height > h then h - y else d.height)
  }

  function EmitCanvasRect(s: Surface, rect: Rect, now: int): Surface {
    if s.canvas.None? then s
    else
      var c := s.canvas.value;
      var d := Clamp(rect, c.w, c.h);
      if d.width <= 0 || d.height <= 0 then s
      else
        s.(pendingFrame := false,
           sentW := c.w, sentH := c.h,
           awaitingAck := true, inFlight := true, sentMs := now,
           wire := s.wire + [FrameMsg(FrameFields(d, c.w, c.h, Crop(c, d)))])
  }

  /** The smallest rectangle around two. */
  function Union(a: Rect, b: Rect): Rect {
    var x0, y0 := Min(a.x, b.x), Min(a.y, b.y);
    Rect(x0, y0, Max(a.x + a.width, b.x + b.width) - x0, Max(a.y + a.height, b.y + b.height) - y0)
  }

  function Hold(s: Surface, d: Rect): Surface {
    s.(pendingFrame := true, pending := if s.pendingFrame then Union(s.pending, d) else d)
  }

  predicate Resized(s: Surface, win: Rect) {
    s.sentW != win.width || s.sentH != win.height
  }

  /** What of the window a commit draws. */
  function Drawn(s: Surface, win: Rect): Rect {
    DamageBounds(s.damage, s.overflow, win, Resized(s, win))
  }

  /** A window is a part of a buffer; sizes are 32-bit. */
  predicate WindowOf(win: Rect, buf: Picture) {
    Fits(win, buf.w, buf.h) && win.width <= INT32_MAX && win.height <= INT32_MAX
  }

  function Shifted(d: Rect, win: Rect): Rect {
    Rect(win.x + d.x, win.y + d.y, d.width, d.height)
  }

  /** The box of the damage lies in the window. */
  lemma {:induction false} HullWithin(b: Box, damage: seq<Rect>, win: Rect)
    requires b == NO_BOX || (0 <= b.x0 < b.x1 <= win.width && 0 <= b.y0 < b.y1 <= win.height)
    requires 0 < win.width <= INT32_MAX && 0 < win.height <= INT32_MAX
    ensures var r := Hull(b, damage, win);
      r == NO_BOX || (0 <= r.x0 < r.x1 <= win.width && 0 <= r.y0 < r.y1 <= win.height)
    decreases |damage|
  {
    if damage != [] { HullWithin(Widened(b, Clip(damage[0], win)), damage[1..], win); }
  }

  lemma DrawnFits(damage: seq<Rect>, overflow: bool, win: Rect, force: bool)
    requires 0 < win.width <= INT32_MAX && 0 < win.height <= INT32_MAX
    ensures Fits(DamageBounds(damage, overflow, win, force), win.width, win.height)
  {
    HullWithin(NO_BOX, damage, win);
  }

  /** The surface once a commit has landed on its canvas. */
  function Landed(s: Surface, buf: Picture, win: Rect): Surface
    requires WindowOf(win, buf)
  {
    DrawnFits(s.damage, s.overflow, win, Resized(s, win));
    var d := Drawn(s, win);
    var canvas := Land(s.canvas, d, win.width, win.height, Crop(buf, Shifted(d, win)));
    s.(announced := true, canvas := Some(canvas), damage := [], overflow := false)
  }

  /** A commit with a buffer, over the pipe: held behind a frame that is out, else sent. */
  function Commit(s: Surface, buf: Picture, win: Rect, now: int): Surface
    requires WindowOf(win, buf)
  {
    if s.inFlight then Hold(Landed(s, buf, win), Drawn(s, win))
    else EmitCanvasRect(Landed(s, buf, win), Drawn(s, win), now)
  }

  function ReleaseFrames(s: Surface): Surface {
    s.(awaitingAck := false)
  }

  function Acknowledged(s: Surface, now: int): Surface {
    var t := ReleaseFrames(s.(inFlight := false));
    if t.pendingFrame then EmitCanvasRect(t, t.pending, now) else t
  }

  /** Milliseconds since the last frame, on a clock of 32 bits. */
  function Age(s: Surface, now: int): int {
    (now - s.sentMs) % TWO_32
  }

  function CheckStale(s: Surface, now: int): Surface {
    if s.inFlight && Age(s, now) >= GIVE_UP_MS then Acknowledged(s, now)
    else if s.awaitingAck && Age(s, now) >= RELEASE_MS then ReleaseFrames(s)
    else s
  }

  function Hide(s: Surface): Surface {
    if !s.announced then s
    else
      s.(announced := false, canvas := None, sentW := 0, sentH := 0, pendingFrame := false,
         wire := s.wire + [HiddenMsg])
  }

  /** All of the canvas, if there is one. */
  function EmitCanvasFrame(s: Surface, now: int): Surface {
    if s.canvas.None? then s
    else EmitCanvasRect(s, Rect(0, 0, s.canvas.value.w, s.canvas.value.h), now)
  }

  function Resync(s: Surface, now: int): Surface {
    if s.announced then EmitCanvasFrame(s, now) else s
  }
}
