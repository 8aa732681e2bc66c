/**
 A surface, the pipe, and the picture at the other end.

 The browser's drawing code is not part of the model: a frame is taken to
 replace the picture when its full size is another, and then to draw its
 rectangle; a hidden window has no picture.
 */
module FrameProtocol {
  import opened Bytes
  import opened Pictures
  import opened FrameSteps

  /**
   `inSync` says that a page which lost its picture has been sent the window
   again; `last` is the buffer last committed and the window in it.
   */
  datatype System = System(
    surface: Surface,
    screen: Option<Picture>,
    inSync: bool,
    last: Option<(Picture, Rect)>)

  const Start := System(NewSurface, None, true, None)

  datatype Event =
    | Damages(d: Rect)
    | Commits(buf: Picture, win: Rect, now: int)
    | CommitsNothing
    | Acks(now: int)
    | Ticks(now: int)
    | Hides
    | Resyncs(now: int)
    | Reloads(picture: Option<Picture>)
    | Shows

  function Shown(screen: Option<Picture>, m: Msg): Option<Picture> {
    match m
    case HiddenMsg => None
    case FrameMsg(f) =>
      var under := if screen.Some? && screen.value.w == f.fullW && screen.value.h == f.fullH
                   then screen.value else Blank(f.fullW, f.fullH);
      Some(Blit(under, f.d, f.pix))
  }

  /** The picture once everything on the pipe has been shown. */
  function AllShown(screen: Option<Picture>, wire: seq<Msg>): Option<Picture>
    decreases |wire|
  {
    if wire == [] then screen else AllShown(Shown(screen, wire[0]), wire[1..])
  }

  lemma {:induction false} AllShownSplit(screen: Option<Picture>, a: seq<Msg>, b: seq<Msg>)
    ensures AllShown(screen, a + b) == AllShown(AllShown(screen, a), b)
    decreases |a|
  {
    if a == [] {
      assert a + b == b;
    } else {
      assert (a + b)[1..] == a[1..] + b;
      AllShownSplit(Shown(screen, a[0]), a[1..], b);
    }
  }

  predicate Enabled(s: System, e: Event) {
    match e
    case Commits(buf, win, _) => WindowOf(win, buf)
    case Shows => s.surface.wire != []
    case _ => true
  }

  function Step(s: System, e: Event): System
    requires Enabled(s, e)
  {
    match e
    case Damages(d) => s.(surface := AddDamage(s.surface, d))
    case Commits(buf, win, now) => s.(surface := Commit(s.surface, buf, win, now), last := Some((buf, win)))
    case CommitsNothing => s.(surface := s.surface.(damage := [], overflow := false))
    case Acks(now) => s.(surface := Acknowledged(s.surface, now))
    case Ticks(now) => s.(surface := CheckStale(s.surface, now))
    case Hides => s.(surface := Hide(s.surface), last := if s.surface.announced then None else s.last)
    case Resyncs(now) => s.(surface := Resync(s.surface, now), inSync := true)
    case Reloads(picture) => s.(surface := s.surface.(wire := []), screen := picture, inSync := false)
    case Shows => s.(surface := s.surface.(wire := s.surface.wire[1..]), screen := Shown(s.screen, s.surface.wire[0]))
  }

  /* ---- Damage means what it should ---- */

  predicate Damaged(damage: seq<Rect>, x: int, y: int) {
    exists i :: 0 <= i < |damage| && Inside(damage[i], x, y)
  }

  predicate InBox(b: Box, x: int, y: int) {
    b.x0 <= x < b.x1 && b.y0 <= y < b.y1
  }

  lemma {:induction false} HullHolds(b: Box, damage: seq<Rect>, win: Rect, x: int, y: int)
    requires 0 <= x < win.width && 0 <= y < win.height
    requires InBox(b, x, y) || Damaged(damage, win.x + x, win.y + y)
    ensures InBox(Hull(b, damage, win), x, y)
    decreases |damage|
  {
    if damage != [] {
      if !InBox(b, x, y) {
        var i :| 0 <= i < |damage| && Inside(damage[i], win.x + x, win.y + y);
        if i > 0 { assert damage[1..][i - 1] == damage[i]; }
      }
      HullHolds(Widened(b, Clip(damage[0], win)), damage[1..], win, x, y);
    }
  }

  /** No larger than it has to be: a box around all of the damage in the window is around its hull. */
  lemma {:induction false} HullLeast(b: Box, damage: seq<Rect>, win: Rect, r: Box)
    requires b == NO_BOX || (r.x0 <= b.x0 && r.y0 <= b.y0 && b.x1 <= r.x1 && b.y1 <= r.y1)
    requires forall x, y :: 0 <= x < win.width && 0 <= y < win.height && Damaged(damage, win.x + x, win.y + y)
               ==> InBox(r, x, y)
    requires 0 < win.width <= INT32_MAX && 0 < win.height <= INT32_MAX
    ensures var h := Hull(b, damage, win);
      h == NO_BOX || (r.x0 <= h.x0 && r.y0 <= h.y0 && h.x1 <= r.x1 && h.y1 <= r.y1)
    decreases |damage|
  {
    if damage != [] {
      var c := Clip(damage[0], win);
      if !Empty(c) {
        assert Inside(damage[0], win.x + c.x0, win.y + c.y0);
        assert Inside(damage[0], win.x + (c.x1 - 1), win.y + (c.y1 - 1));
        assert InBox(r, c.x0, c.y0) && InBox(r, c.x1 - 1, c.y1 - 1);
      }
      forall x, y | 0 <= x < win.width && 0 <= y < win.height && Damaged(damage[1..], win.x + x, win.y + y)
        ensures InBox(r, x, y)
      {
        var i :| 0 <= i < |damage[1..]| && Inside(damage[1..][i], win.x + x, win.y + y);
        assert Inside(damage[i + 1], win.x + x, win.y + y);
      }
      HullLeast(Widened(b, c), damage[1..], win, r);
    }
  }

  /** Every damaged pixel of the window is drawn, whichever way the bounds were arrived at. */
  lemma DamageDrawn(damage: seq<Rect>, overflow: bool, win: Rect, force: bool, x: int, y: int)
    requires 0 <= x < win.width && 0 <= y < win.height && Damaged(damage, win.x + x, win.y + y)
    ensures Inside(DamageBounds(damage, overflow, win, force), x, y)
  {
    HullHolds(NO_BOX, damage, win, x, y);
  }

  /** And what is drawn is the whole window or lies in every rectangle that holds the damage. */
  lemma DamageTight(damage: seq<Rect>, win: Rect, r: Rect)
    requires 0 < win.width <= INT32_MAX && 0 < win.height <= INT32_MAX
    requires forall x, y :: 0 <= x < win.width && 0 <= y < win.height && Damaged(damage, win.x + x, win.y + y)
               ==> Inside(r, x, y)
    ensures var d := DamageBounds(damage, false, win, false);
      || d == WholeOf(win)
      || (r.x <= d.x && r.y <= d.y && d.x + d.width <= r.x + r.width && d.y + d.height <= r.y + r.height)
  {
    var box := Box(r.x, r.y, r.x + r.width, r.y + r.height);
    forall x, y | 0 <= x < win.width && 0 <= y < win.height && Damaged(damage, win.x + x, win.y + y)
      ensures InBox(box, x, y)
    {
      assert Inside(r, x, y);
    }
    HullLeast(NO_BOX, damage, win, box);
  }

  /* ---- The invariant ---- */

  /** What of the rectangle lies within the picture is not nothing. */
  predicate Meets(r: Rect, c: Picture) {
    Fits(Clamp(r, c.w, c.h), c.w, c.h)
  }

  /** Pacing, and that an unsent resize is wholly pending; whatever clients do. */
  predicate Paced(s: Surface) {
    && (s.pendingFrame ==> s.inFlight && s.canvas.Some? && Meets(s.pending, s.canvas.value))
    && (s.awaitingAck ==> s.inFlight)
    && (s.canvas.Some? ==> s.announced)
    && (s.canvas.None? ==> s.sentW == 0 && s.sentH == 0)
    && (s.canvas.Some? && (s.sentW != s.canvas.value.w || s.sentH != s.canvas.value.h) ==>
          s.pendingFrame && Covers(s.pending, s.canvas.value.w, s.canvas.value.h))
  }

  predicate SamePixel(picture: Option<Picture>, c: Picture, x: int, y: int)
    requires 0 <= x < c.w && 0 <= y < c.h
  {
    && picture.Some? && picture.value.w == c.w && picture.value.h == c.h
    && picture.value.rows[y][x] == c.rows[y][x]
  }

  /** Outside what is pending, `picture` is the canvas. */
  predicate Agrees(s: Surface, picture: Option<Picture>) {
    s.canvas.Some? ==>
      forall x, y :: 0 <= x < s.canvas.value.w && 0 <= y < s.canvas.value.h ==>
        (s.pendingFrame && Inside(s.pending, x, y)) || SamePixel(picture, s.canvas.value, x, y)
  }

  /** The canvas is the window as last committed. */
  predicate Faithful(s: System) {
    match s.last
    case None => s.surface.canvas.None?
    case Some((buf, win)) =>
      WindowOf(win, buf) && s.surface.canvas == Some(PictureFields(win.width, win.height, Crop(buf, win)))
  }

  /** Page and canvas, whatever the client commits. */
  predicate InStep(s: System) {
    && Paced(s.surface)
    && (s.inSync ==> Agrees(s.surface, AllShown(s.screen, s.surface.wire)))
  }

  /** Page, canvas and window. */
  predicate Good(s: System) {
    InStep(s) && Faithful(s)
  }

  /**
   What a client owes: a commit differs from the one before only where it says
   it is damaged, and one with another window has damaged all of it.
   */
  predicate Honest(s: System, e: Event)
    requires Enabled(s, e)
  {
    e.Commits? && s.last.Some? ==>
      var (prev, win) := s.last.value;
      || DamageBounds(s.surface.damage, s.surface.overflow, e.win, false) == WholeOf(e.win)
      || (&& win == e.win && WindowOf(win, prev)
          && forall x, y :: 0 <= x < win.width && 0 <= y < win.height ==>
               Damaged(s.surface.damage, win.x + x, win.y + y) || Unchanged(e.buf, prev, win, x, y))
  }

  /** The window's pixel is the same in both buffers. */
  predicate Unchanged(buf: Picture, prev: Picture, win: Rect, x: int, y: int)
    requires WindowOf(win, buf) && WindowOf(win, prev) && 0 <= x < win.width && 0 <= y < win.height
  {
    buf.rows[win.y + y][win.x + x] == prev.rows[win.y + y][win.x + x]
  }

  /* ---- Emitting ---- */

  /** A frame whose rectangle takes in every difference makes the picture the canvas. */
  lemma EmitShows(s: Surface, rect: Rect, now: int, picture: Option<Picture>)
    requires s.canvas.Some? && Meets(rect, s.canvas.value)
    requires forall x, y :: 0 <= x < s.canvas.value.w && 0 <= y < s.canvas.value.h ==>
               Inside(rect, x, y) || SamePixel(picture, s.canvas.value, x, y)
    ensures var t := EmitCanvasRect(s, rect, now);
      && |t.wire| == |s.wire| + 1 && t.wire[..|s.wire|] == s.wire
      && Shown(picture, t.wire[|s.wire|]) == s.canvas
      && t.canvas == s.canvas && !t.pendingFrame && t.inFlight && t.announced == s.announced
      && t.sentW == s.canvas.value.w && t.sentH == s.canvas.value.h
  {
    var c := s.canvas.value;
    var t := EmitCanvasRect(s, rect, now);
    var shown := Shown(picture, t.wire[|s.wire|]);
    var d := Clamp(rect, c.w, c.h);
    forall x, y | 0 <= x < c.w && 0 <= y < c.h ensures shown.value.rows[y][x] == c.rows[y][x] {
      if !Inside(d, x, y) {
        assert !Inside(rect, x, y);
        assert SamePixel(picture, c, x, y);
      }
    }
    SamePicture(shown.value, c);
  }

  lemma AgreesWhole(s: Surface, picture: Option<Picture>)
    requires s.canvas.Some? && !s.pendingFrame && Agrees(s, picture)
    ensures picture == s.canvas
  {
    var c := s.canvas.value;
    assert SamePixel(picture, c, 0, 0);
    forall x, y | 0 <= x < c.w && 0 <= y < c.h ensures picture.value.rows[y][x] == c.rows[y][x] {
      assert SamePixel(picture, c, x, y);
    }
    SamePicture(picture.value, c);
  }

  lemma SameAgrees(s: Surface)
    ensures Agrees(s, s.canvas)
  {
  }

  /** The pending rectangle, sent: the picture is the canvas. */
  lemma AckShows(s: Surface, now: int, picture: Option<Picture>)
    requires Paced(s) && Agrees(s, picture)
    ensures var t := Acknowledged(s, now);
      && Paced(t) && !t.pendingFrame && t.canvas == s.canvas
      && s.wire <= t.wire
      && Agrees(t, AllShown(picture, t.wire[|s.wire|..]))
      && (t.canvas.Some? ==> AllShown(picture, t.wire[|s.wire|..]) == t.canvas)
  {
    var t := Acknowledged(s, now);
    if s.pendingFrame {
      EmitShows(s.(inFlight := false, awaitingAck := false), s.pending, now, picture);
      assert t.wire[|s.wire|..] == [t.wire[|s.wire|]];
      assert [t.wire[|s.wire|]][1..] == [];
    } else {
      assert t.wire[|s.wire|..] == [];
      if t.canvas.Some? { AgreesWhole(t, picture); }
    }
  }

  /* ---- Committing ---- */

  /** When a commit leaves nothing of a new canvas that is neither sent nor pending. */
  predicate CommitCovers(s: Surface, win: Rect) {
    || (s.canvas.Some? && s.canvas.value.w == win.width && s.canvas.value.h == win.height)
    || Drawn(s, win) == WholeOf(win)
    || (s.pendingFrame && Covers(Union(s.pending, Drawn(s, win)), win.width, win.height))
  }

  /** What a commit leaves to be sent, together with what was pending, holds every difference from the picture. */
  lemma CommitDiffers(s: Surface, buf: Picture, win: Rect, picture: Option<Picture>, x: int, y: int)
    requires WindowOf(win, buf) && Agrees(s, picture) && CommitCovers(s, win)
    requires 0 <= x < win.width && 0 <= y < win.height
    ensures
      || Inside(Drawn(s, win), x, y)
      || (s.pendingFrame && Inside(Union(s.pending, Drawn(s, win)), x, y))
      || SamePixel(picture, Landed(s, buf, win).canvas.value, x, y)
  {
    var d := Drawn(s, win);
    DrawnFits(s.damage, s.overflow, win, Resized(s, win));
    if !Inside(d, x, y) && s.canvas.Some? && s.canvas.value.w == win.width && s.canvas.value.h == win.height {
      var c := s.canvas.value;
      assert Landed(s, buf, win).canvas.value.rows[y][x] == c.rows[y][x];
      assert (s.pendingFrame && Inside(s.pending, x, y)) || SamePixel(picture, c, x, y);
    }
  }

  lemma CommitPaced(s: Surface, buf: Picture, win: Rect, now: int)
    requires Paced(s) && WindowOf(win, buf)
    ensures Paced(Commit(s, buf, win, now))
    ensures Commit(s, buf, win, now).canvas == Landed(s, buf, win).canvas
    ensures s.wire <= Commit(s, buf, win, now).wire
  {
    DrawnFits(s.damage, s.overflow, win, Resized(s, win));
  }

  lemma CommitAgrees(s: Surface, buf: Picture, win: Rect, now: int, picture: Option<Picture>)
    requires Paced(s) && WindowOf(win, buf) && Agrees(s, picture) && CommitCovers(s, win)
    ensures var t := Commit(s, buf, win, now);
      s.wire <= t.wire && Agrees(t, AllShown(picture, t.wire[|s.wire|..]))
  {
    var d, m := Drawn(s, win), Landed(s, buf, win);
    DrawnFits(s.damage, s.overflow, win, Resized(s, win));
    CommitPaced(s, buf, win, now);
    forall x, y | 0 <= x < win.width && 0 <= y < win.height
      ensures Inside(d, x, y) || (s.pendingFrame && Inside(Union(s.pending, d), x, y))
              || SamePixel(picture, m.canvas.value, x, y)
    {
      CommitDiffers(s, buf, win, picture, x, y);
    }
    var t := Commit(s, buf, win, now);
    if s.inFlight {
      assert t.wire[|s.wire|..] == [];
    } else {
      EmitShows(m, d, now, picture);
      assert t.wire[|s.wire|..] == [t.wire[|s.wire|]];
      assert [t.wire[|s.wire|]][1..] == [];
      SameAgrees(t);
    }
  }

  /**
   Exactly when a commit keeps the picture in step, whatever picture the last
   frames left: the code's own test, against the size last sent, is not enough
   when a window returns to that size while a frame is out.
   */
  lemma CommitExact(s: Surface, buf: Picture, win: Rect, now: int)
    requires Paced(s) && WindowOf(win, buf)
    ensures s.wire <= Commit(s, buf, win, now).wire
    ensures CommitCovers(s, win) <==>
      forall p: Picture :: p.w == s.sentW && p.h == s.sentH && Agrees(s, Some(p)) ==>
        Agrees(Commit(s, buf, win, now), AllShown(Some(p), Commit(s, buf, win, now).wire[|s.wire|..]))
  {
    CommitPaced(s, buf, win, now);
    var t := Commit(s, buf, win, now);
    if CommitCovers(s, win) {
      forall p: Picture | p.w == s.sentW && p.h == s.sentH && Agrees(s, Some(p))
        ensures Agrees(t, AllShown(Some(p), t.wire[|s.wire|..]))
      {
        CommitAgrees(s, buf, win, now, Some(p));
      }
    } else {
      UncoveredDiffers(s, buf, win, now);
    }
  }

  lemma UncoveredDiffers(s: Surface, buf: Picture, win: Rect, now: int)
    requires Paced(s) && WindowOf(win, buf) && !CommitCovers(s, win)
    ensures var t := Commit(s, buf, win, now);
      && s.wire <= t.wire
      && exists p: Picture :: p.w == s.sentW && p.h == s.sentH && Agrees(s, Some(p))
                              && !Agrees(t, AllShown(Some(p), t.wire[|s.wire|..]))
  {
    var t := Commit(s, buf, win, now);
    var d := Drawn(s, win);
    DrawnFits(s.damage, s.overflow, win, Resized(s, win));
    assert !Resized(s, win) && s.pendingFrame && s.inFlight;
    assert t.wire[|s.wire|..] == [];
    var ink := Pixel(255, 255, 255, 255);
    var p: Picture := PictureFields(win.width, win.height, seq(win.height, y => seq(win.width, x => ink)));
    assert Agrees(s, Some(p));
    var u := Union(s.pending, d);
    var x, y := if u.x + u.width < win.width then win.width - 1 else 0,
                if u.x + u.width < win.width then 0 else win.height - 1;
    assert !Inside(u, x, y) && !Inside(d, x, y);
    assert t.canvas.value.rows[y][x] == CLEAR;
    assert !SamePixel(Some(p), t.canvas.value, x, y);
    assert !Agrees(t, Some(p));
    assert AllShown(Some(p), []) == Some(p);
  }
}
