/** What the frame pipeline promises, over whole runs. */
module FrameResults {
  import opened Bytes
  import opened Pictures
  import opened FrameSteps
  import opened FrameProtocol

  /* ---- Every event ---- */

  /** The server sent `t.wire` beyond `s.wire`, and the two pictures were in step. */
  lemma ServerAgrees(s: System, t: System)
    requires s.inSync ==> Agrees(s.surface, AllShown(s.screen, s.surface.wire))
    requires s.surface.wire <= t.surface.wire && t.screen == s.screen && t.inSync == s.inSync
    requires var p := AllShown(s.screen, s.surface.wire);
      s.inSync ==> Agrees(t.surface, AllShown(p, t.surface.wire[|s.surface.wire|..]))
    ensures t.inSync ==> Agrees(t.surface, AllShown(t.screen, t.surface.wire))
  {
    var added := t.surface.wire[|s.surface.wire|..];
    assert t.surface.wire == s.surface.wire + added;
    AllShownSplit(s.screen, s.surface.wire, added);
  }

  /** What an honest commit does not draw is on the canvas already. */
  lemma UndrawnKept(s: System, buf: Picture, win: Rect, now: int, x: int, y: int)
    requires Good(s) && WindowOf(win, buf) && Honest(s, Commits(buf, win, now))
    requires 0 <= x < win.width && 0 <= y < win.height && !Inside(Drawn(s.surface, win), x, y)
    ensures KeptAt(s.surface.canvas, win.width, win.height).rows[y][x] == buf.rows[win.y + y][win.x + x]
  {
    var prev := s.last.value.0;
    if Damaged(s.surface.damage, win.x + x, win.y + y) {
      DamageDrawn(s.surface.damage, s.surface.overflow, win, Resized(s.surface, win), x, y);
    }
    assert Unchanged(buf, prev, win, x, y);
    assert Crop(prev, win)[y][x] == prev.rows[win.y + y][win.x + x];
  }

  lemma LandedPixel(s: Surface, buf: Picture, win: Rect, x: int, y: int)
    requires WindowOf(win, buf) && 0 <= x < win.width && 0 <= y < win.height
    ensures Landed(s, buf, win).canvas.value.rows[y][x] ==
      if Inside(Drawn(s, win), x, y) then buf.rows[win.y + y][win.x + x]
      else KeptAt(s.canvas, win.width, win.height).rows[y][x]
  {
    hide Blit, KeptAt, DamageBounds;
    DrawnFits(s.damage, s.overflow, win, Resized(s, win));
  }

  /** Drawing the damage alone is drawing the window: the canvas is then a copy of it. */
  lemma CommitFaithful(s: System, buf: Picture, win: Rect, now: int)
    requires Good(s) && WindowOf(win, buf) && Honest(s, Commits(buf, win, now))
    ensures Landed(s.surface, buf, win).canvas == Some(PictureFields(win.width, win.height, Crop(buf, win)))
  {
    var c: Picture := Landed(s.surface, buf, win).canvas.value;
    var whole: Picture := PictureFields(win.width, win.height, Crop(buf, win));
    forall x, y | 0 <= x < win.width && 0 <= y < win.height
      ensures c.rows[y][x] == buf.rows[win.y + y][win.x + x]
    {
      LandedPixel(s.surface, buf, win, x, y);
      if !Inside(Drawn(s.surface, win), x, y) { UndrawnKept(s, buf, win, now, x, y); }
    }
    LandedSize(s.surface, buf, win);
    SamePicture(c, whole);
  }

  lemma LandedSize(s: Surface, buf: Picture, win: Rect)
    requires WindowOf(win, buf)
    ensures var c := Landed(s, buf, win).canvas; c.Some? && c.value.w == win.width && c.value.h == win.height
  {
  }

  lemma HonestCovers(s: System, buf: Picture, win: Rect, now: int)
    requires Good(s) && WindowOf(win, buf) && Honest(s, Commits(buf, win, now))
    ensures CommitCovers(s.surface, win)
  {
  }

  /* ---- Page and canvas ---- */

  lemma CommitInStep(s: System, buf: Picture, win: Rect, now: int)
    requires InStep(s) && WindowOf(win, buf) && CommitCovers(s.surface, win)
    ensures InStep(Step(s, Commits(buf, win, now)))
  {
    CommitPaced(s.surface, buf, win, now);
    if s.inSync {
      CommitAgrees(s.surface, buf, win, now, AllShown(s.screen, s.surface.wire));
    }
    ServerAgrees(s, Step(s, Commits(buf, win, now)));
  }

  lemma AckInStep(s: System, now: int)
    requires InStep(s)
    ensures InStep(s.(surface := Acknowledged(s.surface, now)))
  {
    var t := s.(surface := Acknowledged(s.surface, now));
    AckPaced(s.surface, now);
    if s.inSync { AckShows(s.surface, now, AllShown(s.screen, s.surface.wire)); }
    ServerAgrees(s, t);
  }

  lemma AckPaced(s: Surface, now: int)
    requires Paced(s)
    ensures Paced(Acknowledged(s, now)) && Acknowledged(s, now).canvas == s.canvas
    ensures s.wire <= Acknowledged(s, now).wire
  {
  }

  lemma HideInStep(s: System)
    requires InStep(s)
    ensures InStep(Step(s, Hides))
  {
    if s.surface.announced {
      AllShownSplit(s.screen, s.surface.wire, [HiddenMsg]);
    }
  }

  /** Whatever the page has, the window sent whole puts it right. */
  lemma ResyncInStep(s: System, now: int)
    requires InStep(s)
    ensures InStep(Step(s, Resyncs(now)))
  {
    var t := Step(s, Resyncs(now));
    if s.surface.canvas.Some? {
      var c := s.surface.canvas.value;
      EmitShows(s.surface, Rect(0, 0, c.w, c.h), now, AllShown(s.screen, s.surface.wire));
      var n := |s.surface.wire|;
      assert t.surface.wire == s.surface.wire + [t.surface.wire[n]];
      AllShownSplit(s.screen, s.surface.wire, [t.surface.wire[n]]);
      assert [t.surface.wire[n]][1..] == [];
      SameAgrees(t.surface);
    }
  }

  /** What neither draws nor sends. */
  lemma QuietInStep(s: System, e: Event)
    requires InStep(s) && Enabled(s, e) && (e.Damages? || e.CommitsNothing? || e.Reloads? || e.Shows?)
    ensures InStep(Step(s, e))
  {
  }

  lemma TickInStep(s: System, now: int)
    requires InStep(s)
    ensures InStep(Step(s, Ticks(now)))
  {
    AckInStep(s, now);
  }

  /** A commit, if the event is one, leaves nothing of a new canvas unsent and not pending. */
  predicate CoversIfCommit(s: System, e: Event)
    requires Enabled(s, e)
  {
    e.Commits? ==> CommitCovers(s.surface, e.win)
  }

  lemma StepInStep(s: System, e: Event)
    requires InStep(s) && Enabled(s, e) && CoversIfCommit(s, e)
    ensures InStep(Step(s, e))
  {
    hide InStep, CommitCovers;
    match e {
      case Damages(d) => QuietInStep(s, e);
      case Commits(buf, win, now) => CommitInStep(s, buf, win, now);
      case CommitsNothing => QuietInStep(s, e);
      case Acks(now) => AckInStep(s, now);
      case Ticks(now) => TickInStep(s, now);
      case Hides => HideInStep(s);
      case Resyncs(now) => ResyncInStep(s, now);
      case Reloads(picture) => QuietInStep(s, e);
      case Shows => QuietInStep(s, e);
    }
  }

  /* ---- Canvas and window ---- */

  /** Only a commit or a hide changes the canvas, and an honest commit makes it the window. */
  lemma StepFaithful(s: System, e: Event)
    requires Good(s) && Enabled(s, e) && Honest(s, e)
    ensures Faithful(Step(s, e)) && CoversIfCommit(s, e)
  {
    match e {
      case Commits(buf, win, now) =>
        CommitFaithful(s, buf, win, now);
        HonestCovers(s, buf, win, now);
        CommitPaced(s.surface, buf, win, now);
      case Acks(now) => AckPaced(s.surface, now);
      case Ticks(now) => AckPaced(s.surface, now);
      case Resyncs(now) => ResyncKeepsCanvas(s.surface, now);
      case _ =>
    }
  }

  lemma ResyncKeepsCanvas(s: Surface, now: int)
    ensures Resync(s, now).canvas == s.canvas
  {
  }

  lemma StepGood(s: System, e: Event)
    requires Good(s) && Enabled(s, e) && Honest(s, e)
    ensures Good(Step(s, e))
  {
    StepFaithful(s, e);
    StepInStep(s, e);
  }

  /** Pacing needs nothing of the client. */
  lemma StepPaced(s: System, e: Event)
    requires Paced(s.surface) && Enabled(s, e)
    ensures Paced(Step(s, e).surface)
  {
    match e {
      case Commits(buf, win, now) => CommitPaced(s.surface, buf, win, now);
      case Acks(now) => AckPaced(s.surface, now);
      case Ticks(now) => AckPaced(s.surface, now);
      case _ =>
    }
  }

  /* ---- Runs ---- */

  predicate Legal(s: System, es: seq<Event>)
    decreases |es|
  {
    es == [] || (Enabled(s, es[0]) && Legal(Step(s, es[0]), es[1..]))
  }

  predicate AllHonest(s: System, es: seq<Event>)
    requires Legal(s, es)
    decreases |es|
  {
    es == [] || (Honest(s, es[0]) && AllHonest(Step(s, es[0]), es[1..]))
  }

  function After(s: System, es: seq<Event>): System
    requires Legal(s, es)
    decreases |es|
  {
    if es == [] then s else After(Step(s, es[0]), es[1..])
  }

  predicate AllCover(s: System, es: seq<Event>)
    requires Legal(s, es)
    decreases |es|
  {
    es == [] || (CoversIfCommit(s, es[0]) && AllCover(Step(s, es[0]), es[1..]))
  }

  lemma {:induction false} InStepAfter(s: System, es: seq<Event>)
    requires InStep(s) && Legal(s, es) && AllCover(s, es)
    ensures InStep(After(s, es))
    decreases |es|
  {
    hide InStep, Step, Enabled, CoversIfCommit;
    if es != [] {
      StepInStep(s, es[0]);
      InStepAfter(Step(s, es[0]), es[1..]);
    }
  }

  lemma {:induction false} GoodAfter(s: System, es: seq<Event>)
    requires Good(s) && Legal(s, es) && AllHonest(s, es)
    ensures Good(After(s, es))
    decreases |es|
  {
    if es != [] {
      StepGood(s, es[0]);
      GoodAfter(Step(s, es[0]), es[1..]);
    }
  }

  lemma {:induction false} PacedAfter(s: System, es: seq<Event>)
    requires Paced(s.surface) && Legal(s, es)
    ensures Paced(After(s, es).surface)
    decreases |es|
  {
    if es != [] {
      StepPaced(s, es[0]);
      PacedAfter(Step(s, es[0]), es[1..]);
    }
  }

  /**
   In every run, whatever the client draws and damages, the page's picture,
   once it has shown what is on the pipe, is the kept canvas everywhere outside
   the pending rectangle, and all of it with nothing pending; only a commit of
   another size has to leave nothing of the new canvas unsent and not pending.
   An acknowledgement makes the picture the canvas.
   */
  lemma PictureIsCanvas(es: seq<Event>, now: int)
    requires Legal(Start, es) && AllCover(Start, es)
    ensures var s := After(Start, es);
      var acked := Step(s, Acks(now));
      s.inSync && s.surface.canvas.Some? ==>
        var picture := AllShown(s.screen, s.surface.wire);
        && Agrees(s.surface, picture)
        && (!s.surface.pendingFrame ==> picture == s.surface.canvas)
        && acked.surface.canvas == s.surface.canvas && !acked.surface.pendingFrame
        && AllShown(acked.screen, acked.surface.wire) == s.surface.canvas
  {
    InStepAfter(Start, es);
    var s := After(Start, es);
    if s.inSync && s.surface.canvas.Some? {
      var picture := AllShown(s.screen, s.surface.wire);
      if !s.surface.pendingFrame { AgreesWhole(s.surface, picture); }
      AckShows(s.surface, now, picture);
      AckInStep(s, now);
      AgreesWhole(Step(s, Acks(now)).surface, AllShown(s.screen, Step(s, Acks(now)).surface.wire));
    }
  }

  /** All of the window is damaged, says so too often to count, or says nothing and so all of it. */
  predicate DamagesWhole(s: Surface, win: Rect) {
    s.damage == [] || s.overflow || exists i :: 0 <= i < |s.damage| && CoversWindow(s.damage[i], win)
  }

  predicate CoversWindow(d: Rect, win: Rect) {
    d.x <= win.x && d.y <= win.y && d.x + d.width >= win.x + win.width && d.y + d.height >= win.y + win.height
  }

  /** A commit of another size than the one before damages the whole window: all that is asked of a client. */
  predicate ResizesWhole(s: System, e: Event)
    requires Enabled(s, e)
  {
    e.Commits? && s.surface.canvas.Some?
    && (s.surface.canvas.value.w != e.win.width || s.surface.canvas.value.h != e.win.height)
    ==> DamagesWhole(s.surface, e.win)
  }

  predicate AllResizeWhole(s: System, es: seq<Event>)
    requires Legal(s, es)
    decreases |es|
  {
    es == [] || (ResizesWhole(s, es[0]) && AllResizeWhole(Step(s, es[0]), es[1..]))
  }

  lemma WholeCovers(s: System, e: Event)
    requires Paced(s.surface) && Enabled(s, e) && ResizesWhole(s, e)
    ensures CoversIfCommit(s, e)
  {
    if e.Commits? {
      var d, win := Drawn(s.surface, e.win), e.win;
      DrawnFits(s.surface.damage, s.surface.overflow, win, Resized(s.surface, win));
      if DamagesWhole(s.surface, win) && s.surface.damage != [] && !s.surface.overflow && !Resized(s.surface, win) {
        var i :| 0 <= i < |s.surface.damage| && CoversWindow(s.surface.damage[i], win);
        assert Inside(s.surface.damage[i], win.x, win.y);
        assert Inside(s.surface.damage[i], win.x + (win.width - 1), win.y + (win.height - 1));
        DamageDrawn(s.surface.damage, false, win, false, 0, 0);
        DamageDrawn(s.surface.damage, false, win, false, win.width - 1, win.height - 1);
        assert d == WholeOf(win);
      }
    }
  }

  lemma {:induction false} ResizesCover(s: System, es: seq<Event>)
    requires Paced(s.surface) && Legal(s, es) && AllResizeWhole(s, es)
    ensures AllCover(s, es)
    decreases |es|
  {
    hide Paced, Step, Enabled, CoversIfCommit, ResizesWhole;
    if es != [] {
      WholeCovers(s, es[0]);
      StepPaced(s, es[0]);
      ResizesCover(Step(s, es[0]), es[1..]);
    }
  }

  /** So a client that damages its whole window when it resizes is shown right, however wrong its other damage. */
  lemma ResizingIsEnough(es: seq<Event>, now: int)
    requires Legal(Start, es) && AllResizeWhole(Start, es)
    ensures var s := After(Start, es);
      s.inSync && s.surface.canvas.Some? ==>
        && Agrees(s.surface, AllShown(s.screen, s.surface.wire))
        && (!s.surface.pendingFrame ==> AllShown(s.screen, s.surface.wire) == s.surface.canvas)
        && AllShown(s.screen, Step(s, Acks(now)).surface.wire) == s.surface.canvas
  {
    ResizesCover(Start, es);
    PictureIsCanvas(es, now);
  }

  /**
   In every run of honest commits, the page's picture, once it has shown what
   is on the pipe, is the client's window everywhere outside the pending
   rectangle; so with nothing pending it is the window.
   */
  lemma PictureIsWindow(es: seq<Event>)
    requires Legal(Start, es) && AllHonest(Start, es)
    ensures var s := After(Start, es);
      s.inSync && s.last.Some? ==>
        var (buf, win) := s.last.value;
        var picture := AllShown(s.screen, s.surface.wire);
        && WindowOf(win, buf)
        && (forall x, y :: 0 <= x < win.width && 0 <= y < win.height ==>
              || (s.surface.pendingFrame && Inside(s.surface.pending, x, y))
              || SamePixel(picture, PictureFields(win.width, win.height, Crop(buf, win)), x, y))
        && (!s.surface.pendingFrame ==> picture == Some(PictureFields(win.width, win.height, Crop(buf, win))))
  {
    GoodAfter(Start, es);
    var s := After(Start, es);
    if s.inSync && s.last.Some? && !s.surface.pendingFrame {
      AgreesWhole(s.surface, AllShown(s.screen, s.surface.wire));
    }
  }

  /** And what is pending needs one acknowledgement: it is then shown. */
  lemma AckDelivers(es: seq<Event>, now: int)
    requires Legal(Start, es) && AllHonest(Start, es)
    ensures var s := Step(After(Start, es), Acks(now));
      s.inSync && s.last.Some? ==>
        var (buf, win) := s.last.value;
        && WindowOf(win, buf) && !s.surface.pendingFrame
        && AllShown(s.screen, s.surface.wire) == Some(PictureFields(win.width, win.height, Crop(buf, win)))
  {
    GoodAfter(Start, es);
    var s := After(Start, es);
    var t := Step(s, Acks(now));
    AckInStep(s, now);
    AckPaced(s.surface, now);
    if t.inSync && t.last.Some? {
      AckShows(s.surface, now, AllShown(s.screen, s.surface.wire));
      AgreesWhole(t.surface, AllShown(t.screen, t.surface.wire));
    }
  }

  /* ---- Pacing ---- */

  /** The event puts a frame on the pipe. */
  predicate Sends(s: System, e: Event)
    requires Enabled(s, e)
  {
    var was, now := s.surface.wire, Step(s, e).surface.wire;
    |now| > |was| && now[|was|].FrameMsg?
  }

  /** The page has taken the frame that was out, or is given up on. */
  predicate Releases(s: System, e: Event) {
    e.Acks? || (e.Ticks? && s.surface.inFlight && Age(s.surface, e.now) >= GIVE_UP_MS)
  }

  /** A frame leaves only with none out, or to resynchronise; and then it is out. */
  lemma SendsWhenNoneOut(s: System, e: Event)
    requires Paced(s.surface) && Enabled(s, e)
    ensures Sends(s, e) ==> Step(s, e).surface.inFlight
    ensures Sends(s, e) && !e.Resyncs? && !Releases(s, e) ==> !s.surface.inFlight
    ensures s.surface.inFlight && !Releases(s, e) ==> Step(s, e).surface.inFlight
  {
  }

  predicate NoneReleases(s: System, es: seq<Event>)
    requires Legal(s, es)
    decreases |es|
  {
    es == [] || (!Releases(s, es[0]) && NoneReleases(Step(s, es[0]), es[1..]))
  }

  lemma {:induction false} StaysOut(s: System, es: seq<Event>)
    requires Paced(s.surface) && Legal(s, es) && s.surface.inFlight && NoneReleases(s, es)
    ensures Paced(After(s, es).surface) && After(s, es).surface.inFlight
    decreases |es|
  {
    if es != [] {
      StepPaced(s, es[0]);
      SendsWhenNoneOut(s, es[0]);
      StaysOut(Step(s, es[0]), es[1..]);
    }
  }

  /**
   Between one frame of a surface and the next there is an acknowledgement, a
   give-up after thirty seconds, or a resynchronisation, whatever else happens.
   */
  lemma FramesSeparated(before: seq<Event>, e: Event, between: seq<Event>, f: Event)
    requires Legal(Start, before)
    requires var s := After(Start, before); Enabled(s, e) && Sends(s, e) && Legal(Step(s, e), between)
    requires var t := After(Step(After(Start, before), e), between); Enabled(t, f) && Sends(t, f)
    ensures var s := Step(After(Start, before), e);
      f.Resyncs? || Releases(After(s, between), f) || !NoneReleases(s, between)
  {
    PacedAfter(Start, before);
    var s := After(Start, before);
    SendsWhenNoneOut(s, e);
    StepPaced(s, e);
    PacedAfter(Step(s, e), between);
    if NoneReleases(Step(s, e), between) {
      StaysOut(Step(s, e), between);
      SendsWhenNoneOut(After(Step(s, e), between), f);
    }
  }

  /**
   In every run, honest or not: what is pending is behind a frame that is out
   and is something of the canvas, so that the next acknowledgement or give-up
   sends it; and a size not yet sent is pending whole.
   */
  lemma HeldDamageLeaves(es: seq<Event>, now: int)
    requires Legal(Start, es)
    ensures var s := After(Start, es).surface;
      && (s.pendingFrame ==> s.inFlight && |Acknowledged(s, now).wire| == |s.wire| + 1)
      && (s.awaitingAck ==> s.inFlight)
      && !Acknowledged(s, now).pendingFrame
      && (s.canvas.Some? && (s.sentW != s.canvas.value.w || s.sentH != s.canvas.value.h) ==>
            s.pendingFrame && Covers(s.pending, s.canvas.value.w, s.canvas.value.h))
  {
    PacedAfter(Start, es);
  }

  /* ---- Where the code alone does not keep the picture ---- */

  lemma CropWhole(p: Picture)
    ensures Crop(p, Rect(0, 0, p.w, p.h)) == p.rows
  {
    forall y | 0 <= y < p.h ensures Crop(p, Rect(0, 0, p.w, p.h))[y] == p.rows[y] { }
  }

  function WholeBuffer(p: Picture): Rect {
    Rect(0, 0, p.w, p.h)
  }

  predicate Sized(p: Picture) {
    p.w <= INT32_MAX && p.h <= INT32_MAX
  }

  lemma WholeLanded(s: Surface, buf: Picture)
    requires Sized(buf) && Resized(s, WholeBuffer(buf))
    ensures Landed(s, buf, WholeBuffer(buf)) ==
            s.(announced := true, canvas := Some(buf), damage := [], overflow := false)
  {
    var win := WholeBuffer(buf);
    var c := Landed(s, buf, win).canvas.value;
    LandedSize(s, buf, win);
    forall x, y | 0 <= x < buf.w && 0 <= y < buf.h ensures c.rows[y][x] == buf.rows[y][x] {
      LandedPixel(s, buf, win, x, y);
    }
    SamePicture(c, buf);
  }

  /** The first commit of a window goes out whole. */
  lemma FirstCommit(a: Picture)
    requires Sized(a)
    ensures var s := Commit(NewSurface, a, WholeBuffer(a), 0);
      && s.canvas == Some(a) && s.sentW == a.w && s.sentH == a.h && s.inFlight && !s.pendingFrame
      && s.damage == [] && !s.overflow && AllShown(None, s.wire) == Some(a)
  {
    WholeLanded(NewSurface, a);
    CropWhole(a);
    var frame: Frame := FrameFields(WholeBuffer(a), a.w, a.h, a.rows);
    assert Commit(NewSurface, a, WholeBuffer(a), 0).wire == [FrameMsg(frame)];
    SamePicture(Shown(None, FrameMsg(frame)).value, a);
    assert [FrameMsg(frame)][1..] == [];
  }

  lemma OneDamage(d: Rect, win: Rect)
    requires Fits(d, win.width, win.height) && win.x == 0 && win.y == 0
    requires win.width <= INT32_MAX && win.height <= INT32_MAX
    ensures DamageBounds([d], false, win, false) == d
  {
    assert [d][1..] == [];
    assert Hull(NO_BOX, [d], win) == Widened(NO_BOX, Clip(d, win));
  }

  /** A resize while a frame is out is held, whole. */
  lemma ResizeHeld(s: Surface, b: Picture)
    requires Sized(b) && s.inFlight && !s.pendingFrame && Resized(s, WholeBuffer(b))
    ensures Commit(s, b, WholeBuffer(b), 0) ==
            s.(announced := true, canvas := Some(b), damage := [], overflow := false,
               pendingFrame := true, pending := WholeBuffer(b))
  {
    WholeLanded(s, b);
  }

  /** Back at the size last sent, only the damage is drawn, and on a cleared canvas. */
  lemma ReturnDraws(s: Surface, a: Picture, d: Rect, x: int, y: int)
    requires Sized(a) && s.inFlight && s.pendingFrame && s.damage == [d] && !s.overflow
    requires s.sentW == a.w && s.sentH == a.h
    requires s.canvas.Some? && (s.canvas.value.w != a.w || s.canvas.value.h != a.h)
    requires Fits(d, a.w, a.h) && 0 <= x < a.w && 0 <= y < a.h && !Inside(d, x, y)
    ensures var t := Commit(s, a, WholeBuffer(a), 0);
      && t.canvas.Some? && t.canvas.value.w == a.w && t.canvas.value.h == a.h
      && t.canvas.value.rows[y][x] == CLEAR
      && t.pendingFrame && t.pending == Union(s.pending, d) && t.wire == s.wire
  {
    OneDamage(d, WholeBuffer(a));
    LandedPixel(s, a, WholeBuffer(a), x, y);
    LandedSize(s, a, WholeBuffer(a));
  }

  lemma CommitSame(s: Surface, a: Picture, t: Surface)
    requires Sized(a) && t == Commit(s, a, WholeBuffer(a), 0)
    ensures t.damage == [] && !t.overflow
  {
  }

  /**
   A window drawn as `a`, resized to `b` while that frame is out, and brought
   back with only `d` drawn. Its size is then the one last sent, so nothing
   makes the last commit a whole one: the canvas is clear outside `d`, the page
   still shows `a`, and what lies outside the other size is not pending.
   */
  lemma ThereAndBackDiffers(a: Picture, b: Picture, d: Rect, x: int, y: int)
    requires Sized(a) && Sized(b) && (a.w != b.w || a.h != b.h)
    requires Fits(d, a.w, a.h) && Fits(d, b.w, b.h)
    requires 0 <= x < a.w && 0 <= y < a.h && (x >= b.w || y >= b.h) && a.rows[y][x] != CLEAR
    ensures var drawn := Commit(NewSurface, a, WholeBuffer(a), 0);
      var resized := Commit(drawn, b, WholeBuffer(b), 0);
      var back := Commit(AddDamage(resized, d), a, WholeBuffer(a), 0);
      !Agrees(back, AllShown(None, back.wire))
  {
    hide Commit, Landed, AllShown, Agrees, Drawn;
    FirstCommit(a);
    var drawn := Commit(NewSurface, a, WholeBuffer(a), 0);
    ResizeHeld(drawn, b);
    var resized := Commit(drawn, b, WholeBuffer(b), 0);
    CommitSame(drawn, b, resized);
    var damaged := AddDamage(resized, d);
    assert damaged == resized.(damage := [d]);
    ReturnDraws(damaged, a, d, x, y);
    StillThere(Commit(damaged, a, WholeBuffer(a), 0), a, x, y);
  }

  lemma StillThere(s: Surface, a: Picture, x: int, y: int)
    requires AllShown(None, s.wire) == Some(a) && s.canvas.Some?
    requires s.canvas.value.w == a.w && s.canvas.value.h == a.h && 0 <= x < a.w && 0 <= y < a.h
    requires s.canvas.value.rows[y][x] == CLEAR && a.rows[y][x] != CLEAR && !Inside(s.pending, x, y)
    ensures !Agrees(s, AllShown(None, s.wire))
  {
    assert !SamePixel(Some(a), s.canvas.value, x, y);
  }
}
