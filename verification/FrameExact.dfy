/**
 What the events of a surface put on the pipe, in pixels and milliseconds: how
 much is drawn, what of it leaves and when, and that what is held leaves even if
 no acknowledgement ever comes.
 */
module FrameExact {
  import opened Bytes
  import opened Pictures
  import opened FrameSteps
  import opened FrameProtocol
  import opened FrameResults

  /* ---- How much is drawn ---- */

  /** A damaged pixel of the window. */
  predicate Visible(damage: seq<Rect>, win: Rect, x: int, y: int) {
    0 <= x < win.width && 0 <= y < win.height && Damaged(damage, win.x + x, win.y + y)
  }

  ghost predicate AnyVisible(damage: seq<Rect>, win: Rect) {
    exists x, y :: Visible(damage, win, x, y)
  }

  /** `d` is the smallest rectangle around the damage that the window shows. */
  ghost predicate Bounds(d: Rect, damage: seq<Rect>, win: Rect) {
    && (forall x, y :: Visible(damage, win, x, y) ==> Inside(d, x, y))
    && InColumn(damage, win, d.x) && InColumn(damage, win, d.x + d.width - 1)
    && InRow(damage, win, d.y) && InRow(damage, win, d.y + d.height - 1)
  }

  ghost predicate InColumn(damage: seq<Rect>, win: Rect, x: int) {
    exists y :: Visible(damage, win, x, y)
  }

  ghost predicate InRow(damage: seq<Rect>, win: Rect, y: int) {
    exists x :: Visible(damage, win, x, y)
  }

  lemma HullWithinBox(damage: seq<Rect>, win: Rect, r: Box)
    requires 0 < win.width <= INT32_MAX && 0 < win.height <= INT32_MAX
    requires forall x, y :: Visible(damage, win, x, y) ==> InBox(r, x, y)
    ensures var h := Hull(NO_BOX, damage, win);
      h == NO_BOX || (r.x0 <= h.x0 && r.y0 <= h.y0 && h.x1 <= r.x1 && h.y1 <= r.y1)
  {
    forall x, y | 0 <= x < win.width && 0 <= y < win.height && Damaged(damage, win.x + x, win.y + y)
      ensures InBox(r, x, y)
    {
      assert Visible(damage, win, x, y);
    }
    HullLeast(NO_BOX, damage, win, r);
  }

  /** Each side of the hull has a damaged pixel on it: else a smaller box would do. */
  lemma HullTouches(damage: seq<Rect>, win: Rect)
    requires 0 < win.width <= INT32_MAX && 0 < win.height <= INT32_MAX && AnyVisible(damage, win)
    ensures var b := Hull(NO_BOX, damage, win);
      !Empty(b) && Bounds(Rect(b.x0, b.y0, b.x1 - b.x0, b.y1 - b.y0), damage, win)
  {
    var b := Hull(NO_BOX, damage, win);
    forall x, y | Visible(damage, win, x, y) ensures InBox(b, x, y) {
      HullHolds(NO_BOX, damage, win, x, y);
    }
    var x, y :| Visible(damage, win, x, y);
    assert InBox(b, x, y);
    hide Hull, Visible;
    if !InColumn(damage, win, b.x0) { HullWithinBox(damage, win, b.(x0 := b.x0 + 1)); }
    if !InRow(damage, win, b.y0) { HullWithinBox(damage, win, b.(y0 := b.y0 + 1)); }
    if !InColumn(damage, win, b.x1 - 1) { HullWithinBox(damage, win, b.(x1 := b.x1 - 1)); }
    if !InRow(damage, win, b.y1 - 1) { HullWithinBox(damage, win, b.(y1 := b.y1 - 1)); }
  }

  lemma {:induction false} HullOfNothing(damage: seq<Rect>, win: Rect)
    ensures Hull(NO_BOX, damage, win) == NO_BOX || AnyVisible(damage, win)
    decreases |damage|
  {
    if damage != [] {
      var c := Clip(damage[0], win);
      if Empty(c) {
        HullOfNothing(damage[1..], win);
        if AnyVisible(damage[1..], win) { MoreVisible(damage, win); }
      } else {
        assert Inside(damage[0], win.x + c.x0, win.y + c.y0);
        assert Visible(damage, win, c.x0, c.y0);
      }
    }
  }

  lemma MoreVisible(damage: seq<Rect>, win: Rect)
    requires damage != [] && AnyVisible(damage[1..], win)
    ensures AnyVisible(damage, win)
  {
    var x, y :| Visible(damage[1..], win, x, y);
    var i :| 0 <= i < |damage[1..]| && Inside(damage[1..][i], win.x + x, win.y + y);
    assert Inside(damage[i + 1], win.x + x, win.y + y);
    assert Visible(damage, win, x, y);
  }

  /** A commit draws the smallest rectangle around the damage it shows, and the whole window only for want of one. */
  lemma DrawnExactly(damage: seq<Rect>, overflow: bool, win: Rect, force: bool)
    requires 0 < win.width <= INT32_MAX && 0 < win.height <= INT32_MAX
    ensures var d := DamageBounds(damage, overflow, win, force);
      if force || overflow || !AnyVisible(damage, win) then d == Rect(0, 0, win.width, win.height)
      else Bounds(d, damage, win)
  {
    if AnyVisible(damage, win) { HullTouches(damage, win); } else { HullOfNothing(damage, win); }
  }

  /* ---- What is said to be damaged ---- */

  function Areas(ds: seq<Rect>): seq<Rect> {
    if ds == [] then []
    else Areas(ds[..|ds| - 1]) + (if ds[|ds| - 1].width > 0 && ds[|ds| - 1].height > 0 then [ds[|ds| - 1]] else [])
  }

  lemma AreasSnoc(ds: seq<Rect>)
    requires ds != []
    ensures var last := ds[|ds| - 1];
      Areas(ds) == Areas(ds[..|ds| - 1]) + (if last.width > 0 && last.height > 0 then [last] else [])
  {
  }

  lemma FirstOf(a: seq<Rect>, d: Rect)
    ensures |a| > 32 ==> (a + [d])[..32] == a[..32]
    ensures |a| == 32 ==> (a + [d])[..32] == a
  {
  }

  function Damages(ds: seq<Rect>): seq<Event> {
    seq(|ds|, i requires 0 <= i < |ds| => Event.Damages(ds[i]))
  }

  lemma {:induction false} LegalSnoc(s: System, es: seq<Event>, e: Event)
    requires Legal(s, es) && Enabled(After(s, es), e)
    ensures Legal(s, es + [e]) && After(s, es + [e]) == Step(After(s, es), e)
    decreases |es|
  {
    if es == [] {
      assert [] + [e] == [e] && [e][1..] == [];
    } else {
      assert (es + [e])[1..] == es[1..] + [e];
      LegalSnoc(Step(s, es[0]), es[1..], e);
    }
  }

  /** Since the last commit, the first 32 areas are kept as they were said, and only more than that overflow. */
  lemma {:induction false} DamageKept(s: System, ds: seq<Rect>)
    requires s.surface.damage == [] && !s.surface.overflow
    ensures Legal(s, Damages(ds))
    ensures var t := After(s, Damages(ds)).surface;
      && t.damage == (if |Areas(ds)| <= 32 then Areas(ds) else Areas(ds)[..32])
      && (t.overflow <==> |Areas(ds)| > 32)
      && t == s.surface.(damage := t.damage, overflow := t.overflow)
    decreases |ds|
  {
    if ds != [] {
      var before, d := ds[..|ds| - 1], ds[|ds| - 1];
      DamageKept(s, before);
      assert Damages(ds) == Damages(before) + [Event.Damages(d)];
      hide Legal, After, Areas, Damages;
      LegalSnoc(s, Damages(before), Event.Damages(d));
      AreasSnoc(ds);
      FirstOf(Areas(before), d);
    } else {
      assert Damages(ds) == [];
    }
  }

  /* ---- What leaves ---- */

  /** `f` has the pixels of `c` within `rect`, and no more of them. */
  predicate Carries(f: Frame, c: Picture, rect: Rect) {
    && f.fullW == c.w && f.fullH == c.h
    && f.d == Rect(rect.x, rect.y, Min(rect.width, c.w - rect.x), Min(rect.height, c.h - rect.y))
    && forall x, y :: 0 <= x < f.d.width && 0 <= y < f.d.height ==> f.pix[y][x] == c.rows[rect.y + y][rect.x + x]
  }

  /**
   One frame more on the pipe, with what of the canvas lies in `rect`; it is
   out, sent at `now`, with nothing pending.
   */
  ghost predicate Emits(s: Surface, t: Surface, rect: Rect, now: int) {
    && s.canvas.Some? && |t.wire| == |s.wire| + 1 && t.wire[|s.wire|].FrameMsg?
    && Carries(t.wire[|s.wire|].frame, s.canvas.value, rect)
    && t == s.(wire := s.wire + [t.wire[|s.wire|]], inFlight := true, awaitingAck := true, pendingFrame := false,
               sentMs := now, sentW := s.canvas.value.w, sentH := s.canvas.value.h)
  }

  lemma RectEmitted(s: Surface, rect: Rect, now: int)
    requires s.canvas.Some? && Meets(rect, s.canvas.value) && 0 <= rect.x && 0 <= rect.y
    ensures Emits(s, EmitCanvasRect(s, rect, now), rect, now)
    ensures EmitCanvasRect(s, rect, now).canvas == s.canvas
  {
  }

  /** Whatever rectangle is pending begins within the window. */
  predicate Cornered(s: Surface) {
    s.pendingFrame ==> 0 <= s.pending.x && 0 <= s.pending.y
  }

  lemma StepCornered(s: System, e: Event)
    requires Cornered(s.surface) && Enabled(s, e)
    ensures Cornered(Step(s, e).surface)
  {
    if e.Commits? { DrawnFits(s.surface.damage, s.surface.overflow, e.win, Resized(s.surface, e.win)); }
  }

  lemma {:induction false} CorneredAfter(s: System, es: seq<Event>)
    requires Cornered(s.surface) && Legal(s, es)
    ensures Cornered(After(s, es).surface)
    decreases |es|
  {
    hide Cornered, Step, Enabled;
    if es != [] {
      StepCornered(s, es[0]);
      CorneredAfter(Step(s, es[0]), es[1..]);
    }
  }

  /** What a commit has to draw of a window, by the damage of `s`. */
  ghost predicate ToDraw(s: Surface, d: Rect, win: Rect) {
    if s.sentW != win.width || s.sentH != win.height || s.overflow || !AnyVisible(s.damage, win)
    then d == Rect(0, 0, win.width, win.height) else Bounds(d, s.damage, win)
  }

  /** `u` is the smallest rectangle around `a` and `b`. */
  predicate Around(u: Rect, a: Rect, b: Rect) {
    && (u.x == a.x || u.x == b.x) && u.x <= a.x && u.x <= b.x
    && (u.y == a.y || u.y == b.y) && u.y <= a.y && u.y <= b.y
    && (u.x + u.width == a.x + a.width || u.x + u.width == b.x + b.width)
    && u.x + u.width >= a.x + a.width && u.x + u.width >= b.x + b.width
    && (u.y + u.height == a.y + a.height || u.y + u.height == b.y + b.height)
    && u.y + u.height >= a.y + a.height && u.y + u.height >= b.y + b.height
  }

  /** The canvas has the window of `buf` within `d`, and what it had, or nothing, around it. */
  predicate Drew(was: Option<Picture>, c: Picture, buf: Picture, win: Rect, d: Rect)
    requires WindowOf(win, buf)
  {
    && c.w == win.width && c.h == win.height
    && forall x, y :: 0 <= x < c.w && 0 <= y < c.h ==> (
         c.rows[y][x] ==
           if Inside(d, x, y) then buf.rows[win.y + y][win.x + x]
           else if was.Some? && was.value.w == c.w && was.value.h == c.h then was.value.rows[y][x]
           else CLEAR)
  }

  /**
   A commit, with no frame out: what has to be drawn is, and leaves at once.
   With one out: it is drawn, nothing leaves, and it is pending together with
   what was pending before. Either way the damage is settled.
   */
  lemma CommitExactly(s: Surface, buf: Picture, win: Rect, now: int) returns (d: Rect)
    requires WindowOf(win, buf)
    ensures ToDraw(s, d, win) && Fits(d, win.width, win.height)
    ensures var t := Commit(s, buf, win, now);
      && t.canvas.Some? && Drew(s.canvas, t.canvas.value, buf, win, d)
      && var landed := s.(canvas := t.canvas, announced := true, damage := [], overflow := false);
         if !s.inFlight then Emits(landed, t, d, now)
         else t == landed.(pendingFrame := true, pending := t.pending)
              && if s.pendingFrame then Around(t.pending, s.pending, d) else t.pending == d
  {
    d := Drawn(s, win);
    DrawnToDraw(s, win);
    LandedDrew(s, buf, win);
    hide Landed, Drawn, ToDraw, Drew, EmitCanvasRect, Emits, Commit, Around;
    if s.inFlight { CommitHeld(s, buf, win, now); } else { CommitSent(s, buf, win, now); }
  }

  lemma CommitSent(s: Surface, buf: Picture, win: Rect, now: int)
    requires WindowOf(win, buf) && !s.inFlight
    ensures Emits(Landed(s, buf, win), Commit(s, buf, win, now), Drawn(s, win), now)
    ensures Commit(s, buf, win, now).canvas == Landed(s, buf, win).canvas
  {
    LandedMeets(s, buf, win);
    hide Landed, Drawn, Meets, EmitCanvasRect, Emits;
    RectEmitted(Landed(s, buf, win), Drawn(s, win), now);
  }

  lemma LandedMeets(s: Surface, buf: Picture, win: Rect)
    requires WindowOf(win, buf)
    ensures var m, d := Landed(s, buf, win), Drawn(s, win);
      m.canvas.Some? && Meets(d, m.canvas.value) && 0 <= d.x && 0 <= d.y && m.inFlight == s.inFlight
  {
    LandedDrew(s, buf, win);
    DrawnToDraw(s, win);
    hide Landed, Drawn;
  }

  lemma CommitHeld(s: Surface, buf: Picture, win: Rect, now: int)
    requires WindowOf(win, buf) && s.inFlight
    ensures var was, t, d := Landed(s, buf, win), Commit(s, buf, win, now), Drawn(s, win);
      && t == was.(pendingFrame := true, pending := t.pending)
      && if s.pendingFrame then Around(t.pending, s.pending, d) else t.pending == d
  {
    LandedDrew(s, buf, win);
    hide Landed, Drawn, Drew, Union, Around;
    UnionAround(s.pending, Drawn(s, win));
  }

  lemma DrawnToDraw(s: Surface, win: Rect)
    requires 0 < win.width <= INT32_MAX && 0 < win.height <= INT32_MAX
    ensures ToDraw(s, Drawn(s, win), win) && Fits(Drawn(s, win), win.width, win.height)
  {
    DrawnExactly(s.damage, s.overflow, win, Resized(s, win));
    DrawnFits(s.damage, s.overflow, win, Resized(s, win));
  }

  lemma UnionAround(a: Rect, b: Rect)
    ensures Around(Union(a, b), a, b)
  {
  }

  lemma LandedDrew(s: Surface, buf: Picture, win: Rect)
    requires WindowOf(win, buf)
    ensures var t := Landed(s, buf, win);
      && t.canvas.Some? && t.canvas.value.w == win.width && t.canvas.value.h == win.height
      && Drew(s.canvas, t.canvas.value, buf, win, Drawn(s, win))
      && t == s.(canvas := t.canvas, announced := true, damage := [], overflow := false)
  {
    LandedSize(s, buf, win);
    forall x, y | 0 <= x < win.width && 0 <= y < win.height
      ensures Landed(s, buf, win).canvas.value.rows[y][x] ==
        if Inside(Drawn(s, win), x, y) then buf.rows[win.y + y][win.x + x]
        else KeptAt(s.canvas, win.width, win.height).rows[y][x]
    {
      LandedPixel(s, buf, win, x, y);
    }
  }

  /** A hidden window is gone from the page, and starts again from nothing. */
  lemma HiddenIsGone(s: System)
    ensures var t := Step(s, Hides);
      if s.surface.announced
      then AllShown(t.screen, t.surface.wire) == None && t.surface.canvas == None && !t.surface.announced
           && t.surface.sentW == 0 && t.surface.sentH == 0 && !t.surface.pendingFrame
      else t == s
  {
    AllShownSplit(s.screen, s.surface.wire, [HiddenMsg]);
  }

  /** A page that asks for it is sent the whole canvas, frame out or not. */
  lemma ResyncSends(s: System, now: int)
    ensures var t := Step(s, Resyncs(now)).surface;
      if s.surface.announced && s.surface.canvas.Some?
      then Emits(s.surface, t, Rect(0, 0, s.surface.canvas.value.w, s.surface.canvas.value.h), now)
      else t == s.surface
  {
  }

  /** A commit without a buffer draws nothing, and settles the damage all the same. */
  lemma NothingCommitted(s: System)
    ensures Step(s, CommitsNothing) == s.(surface := s.surface.(damage := [], overflow := false))
  {
  }

  /* ---- And when ---- */

  /** Milliseconds from one reading of a 32-bit clock to another. */
  function Since(sent: int, now: int): int {
    (now - sent) % 0x1_0000_0000
  }

  /** The clock of a surface is read when a frame leaves, and only then. */
  lemma SentAt(s: System, e: Event)
    requires Enabled(s, e)
    ensures Sends(s, e) ==>
      && (e.Commits? || e.Acks? || e.Ticks? || e.Resyncs?)
      && Step(s, e).surface.sentMs == e.now && Step(s, e).surface.inFlight && Step(s, e).surface.awaitingAck
    ensures !Sends(s, e) ==> Step(s, e).surface.sentMs == s.surface.sentMs
  {
  }

  predicate NoneSends(s: System, es: seq<Event>)
    requires Legal(s, es)
    decreases |es|
  {
    es == [] || (!Sends(s, es[0]) && NoneSends(Step(s, es[0]), es[1..]))
  }

  lemma {:induction false} SentStays(s: System, es: seq<Event>)
    requires Legal(s, es) && NoneSends(s, es)
    ensures After(s, es).surface.sentMs == s.surface.sentMs
    decreases |es|
  {
    hide Sends, Step, Enabled;
    if es != [] {
      SentAt(s, es[0]);
      SentStays(Step(s, es[0]), es[1..]);
    }
  }

  /** What a tick does to a surface whose last frame left at `sent`. */
  ghost predicate TickDoes(s: Surface, t: Surface, sent: int, now: int) {
    if !s.inFlight || Since(sent, now) < 2000 then t == s
    else if Since(sent, now) < 30000 then t == s.(awaitingAck := false)
    else if !s.pendingFrame then t == s.(inFlight := false, awaitingAck := false)
    else Emits(s, t, s.pending, now)
  }

  lemma TickExactly(s: System, now: int)
    requires Paced(s.surface) && Cornered(s.surface)
    ensures TickDoes(s.surface, Step(s, Ticks(now)).surface, s.surface.sentMs, now)
  {
    var u := s.surface.(inFlight := false, awaitingAck := false);
    if s.surface.pendingFrame { RectEmitted(u, s.surface.pending, now); }
  }

  lemma AckExactly(s: System, now: int)
    requires Paced(s.surface) && Cornered(s.surface)
    ensures var t := Step(s, Acks(now)).surface;
      if s.surface.pendingFrame then Emits(s.surface, t, s.surface.pending, now)
      else t == s.surface.(inFlight := false, awaitingAck := false)
  {
    var u := s.surface.(inFlight := false, awaitingAck := false);
    if s.surface.pendingFrame { RectEmitted(u, s.surface.pending, now); }
  }

  lemma Reached(es: seq<Event>)
    requires Legal(Start, es)
    ensures Paced(After(Start, es).surface) && Cornered(After(Start, es).surface)
  {
    PacedAfter(Start, es);
    CorneredAfter(Start, es);
  }

  /**
   In every run, a tick after a frame that left at `e.now`, none having left
   since: nothing before two seconds; then the client is let go on, with the
   frame still out; after thirty the frame is given up, and what was held
   meanwhile leaves in a frame of its own.
   */
  lemma TickAfterFrame(before: seq<Event>, e: Event, between: seq<Event>, now: int)
    requires Legal(Start, before)
    requires var s := After(Start, before); Enabled(s, e) && Sends(s, e) && Legal(Step(s, e), between)
    requires NoneSends(Step(After(Start, before), e), between)
    ensures var s := After(Start, before);
      var u := After(Step(s, e), between);
      && (e.Commits? || e.Acks? || e.Ticks? || e.Resyncs?)
      && TickDoes(u.surface, Step(u, Ticks(now)).surface, e.now, now)
      && Step(u, Ticks(now)) == u.(surface := Step(u, Ticks(now)).surface)
  {
    var s := After(Start, before);
    Reached(before);
    SentAt(s, e);
    StepPaced(s, e);
    StepCornered(s, e);
    SentStays(Step(s, e), between);
    PacedAfter(Step(s, e), between);
    CorneredAfter(Step(s, e), between);
    TickExactly(After(Step(s, e), between), now);
  }

  /** The same of an acknowledgement: nothing is sent but what was held, and that in one frame. */
  lemma AckAfter(es: seq<Event>, now: int)
    requires Legal(Start, es)
    ensures var s, t := After(Start, es).surface, Step(After(Start, es), Acks(now)).surface;
      if s.pendingFrame then Emits(s, t, s.pending, now)
      else t == s.(inFlight := false, awaitingAck := false)
  {
    Reached(es);
    AckExactly(After(Start, es), now);
  }

  /**
   What is held is not held for ever: without any acknowledgement, a tick that
   finds the frame thirty seconds old makes the page's picture the canvas, with
   nothing pending.
   */
  lemma LateTickDelivers(es: seq<Event>, now: int)
    requires Legal(Start, es) && AllCover(Start, es)
    requires var s := After(Start, es); s.surface.pendingFrame && Since(s.surface.sentMs, now) >= 30000
    ensures var s, t := After(Start, es), Step(After(Start, es), Ticks(now));
      && !t.surface.pendingFrame && t.surface.canvas.Some? && t.surface.canvas == s.surface.canvas
      && Emits(s.surface, t.surface, s.surface.pending, now)
      && (s.inSync ==> AllShown(t.screen, t.surface.wire) == s.surface.canvas)
  {
    Reached(es);
    var s := After(Start, es);
    TickExactly(s, now);
    InStepAfter(Start, es);
    TickInStep(s, now);
    if s.inSync {
      var t := Step(s, Ticks(now));
      AgreesWhole(t.surface, AllShown(t.screen, t.surface.wire));
    }
  }
}
