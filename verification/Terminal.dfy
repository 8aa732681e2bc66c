/**
 A shell and the windows that come and go, server/src/services/pty.ts: who
 holds it, how long it waits alone, what a window that picks it up is shown,
 and what it takes for it to be hung up.
 */
module Terminal {
  import opened Bytes
  import opened RingSpec = Ring

  const SCROLLBACK_BYTES: nat := 1024 * 1024

  /** How long a shell waits for a window: the configured grace, which may be unlimited. */
  datatype Wait = Forever | Seconds(n: int)

  predicate Positive(w: Wait) {
    w.Forever? || w.n > 0
  }

  /** What a window was given: the offset it was told, where in the stream its bytes begin, the bytes. */
  datatype Window = Window(offset: int, from: int, got: seq<byte>)

  datatype Cause = Closed(window: nat) | Lost(window: nat) | Expired

  /** `grace` says whether the timer is running; `stream`, `windows` and `hungUp` are what has happened. */
  datatype Term = Term(
    alive: bool,
    ctx: Option<nat>,
    owner: Option<nat>,
    grace: bool,
    keep: bool,
    ring: View,
    stream: seq<byte>,
    windows: map<nat, Window>,
    next: nat,
    hungUp: seq<Cause>)

  const SPAWNED := Term(true, None, None, false, false, View([], 0), [], map[], 0, [])

  datatype Event =
    | Attach(session: nat, since: nat)
    | OnClose(window: nat, lost: bool, wait: Wait)
    | Keep(session: nat, keep: bool)
    | Expires
    | Exits
    | Output(bytes: seq<byte>)

  function HangUp(t: Term, cause: Cause): Term {
    if !t.alive then t else t.(alive := false, hungUp := t.hungUp + [cause])
  }

  function CloseWindow(t: Term, window: nat, lost: bool, wait: Wait): Term {
    if t.ctx != Some(window) then t
    else
      var left := t.(ctx := None, owner := None);
      if !t.alive then left
      else if lost && (t.keep || Positive(wait)) then
        left.(grace := t.grace || (!t.keep && wait.Seconds?))
      else HangUp(left, if lost then Lost(window) else Closed(window))
  }

  /** What a window that has drawn `since` bytes is shown. */
  function Replay(v: View, since: nat): Window {
    var tail := SinceOf(v, since);
    if tail.Some? then Window(since, Min(since, v.end), tail.value)
    else
      var (bytes, offset) := AllOf(v);
      Window(offset, offset, bytes)
  }

  /** A window takes the shell over; the one that had it loses it first, and is closed after. */
  function Attached(t: Term, session: nat, since: nat): Term {
    var apart := if t.ctx.Some?
                 then CloseWindow(t.(ctx := None, owner := None), t.ctx.value, false, Forever)
                 else t;
    apart.(grace := false, ctx := Some(t.next), owner := Some(session), next := t.next + 1,
           windows := t.windows[t.next := Replay(t.ring, since)])
  }

  function Printed(t: Term, bytes: seq<byte>): Term {
    var u := t.(ring := Pushed(t.ring, bytes, SCROLLBACK_BYTES), stream := t.stream + bytes);
    if t.ctx.Some? && t.ctx.value in t.windows then
      var w := t.windows[t.ctx.value];
      u.(windows := t.windows[t.ctx.value := w.(got := w.got + bytes)])
    else u
  }

  /** A shell that is dead is not attached to; a timer expires while it runs; a read is within the scrollback. */
  predicate Enabled(t: Term, e: Event) {
    match e
    case Attach(_, _) => t.alive
    case Keep(session, _) => t.alive && t.owner == Some(session)
    case Expires => t.grace
    case Output(bytes) => |bytes| <= SCROLLBACK_BYTES
    case _ => true
  }

  function Step(t: Term, e: Event): Term
    requires Enabled(t, e)
  {
    match e
    case Attach(session, since) => Attached(t, session, since)
    case OnClose(window, lost, wait) => CloseWindow(t, window, lost, wait)
    case Keep(_, keep) => t.(keep := keep)
    case Expires => HangUp(t.(grace := false), Expired)
    case Exits => t.(alive := false, grace := false)
    case Output(bytes) => Printed(t, bytes)
  }

  /* ---- What every event keeps ---- */

  /** A window's bytes are a stretch of the stream. */
  predicate IsStretch(w: Window, stream: seq<byte>) {
    && 0 <= w.from && w.from + |w.got| <= |stream|
    && w.got == stream[w.from..w.from + |w.got|]
  }

  /** The current window's reach to the end of it. */
  predicate UpToDate(w: Window, stream: seq<byte>) {
    IsStretch(w, stream) && w.from + |w.got| == |stream|
  }

  predicate Kept(t: Term) {
    && (t.ctx.Some? <==> t.owner.Some?)
    && (t.grace ==> t.ctx.None? && t.alive && !t.keep)
    && |t.hungUp| <= 1 && (t.hungUp != [] ==> !t.alive)
    && (t.ctx.Some? ==> t.ctx.value in t.windows)
    && (forall c :: c in t.windows ==> c < t.next)
  }

  ghost predicate Faithful(t: Term) {
    && t.ring == View(Tail(t.stream, SCROLLBACK_BYTES), |t.stream|)
    && (forall c :: c in t.windows ==> IsStretch(t.windows[c], t.stream))
    && (t.ctx.Some? && t.ctx.value in t.windows ==> UpToDate(t.windows[t.ctx.value], t.stream))
  }

  lemma StepKept(t: Term, e: Event)
    requires Kept(t) && Enabled(t, e)
    ensures Kept(Step(t, e))
  {
    hide Replay, Pushed;
  }

  lemma ReplayUpToDate(stream: seq<byte>, since: nat)
    ensures var w := Replay(View(Tail(stream, SCROLLBACK_BYTES), |stream|), since);
      && UpToDate(w, stream)
      && (w.offset == w.from <==> since <= |stream|)
  {
    CutAtALine(stream, SCROLLBACK_BYTES);
    SinceTail(stream, since);
    hide Tail, AllOf, SinceOf;
    var w := Replay(View(Tail(stream, SCROLLBACK_BYTES), |stream|), since);
    assert w.got == stream[w.from..];
  }

  lemma SinceTail(stream: seq<byte>, since: nat)
    ensures SinceOf(View(Tail(stream, SCROLLBACK_BYTES), |stream|), since) ==
      if since < |stream| - Min(|stream|, SCROLLBACK_BYTES) then None else Some(stream[Min(since, |stream|)..])
  {
    var start := |stream| - Min(|stream|, SCROLLBACK_BYTES);
    if start <= since < |stream| {
      assert Tail(stream, SCROLLBACK_BYTES)[since - start..] == stream[since..];
    } else {
      assert stream[|stream|..] == [];
    }
  }

  lemma PushedTail(stream: seq<byte>, bytes: seq<byte>)
    requires |bytes| <= SCROLLBACK_BYTES
    ensures Pushed(View(Tail(stream, SCROLLBACK_BYTES), |stream|), bytes, SCROLLBACK_BYTES)
         == View(Tail(stream + bytes, SCROLLBACK_BYTES), |stream + bytes|)
  {
    TailOfTail(stream, bytes, SCROLLBACK_BYTES);
    assert Tail(bytes, SCROLLBACK_BYTES) == bytes;
  }

  lemma StretchGrows(w: Window, stream: seq<byte>, bytes: seq<byte>)
    requires IsStretch(w, stream)
    ensures IsStretch(w, stream + bytes)
    ensures UpToDate(w, stream) ==> UpToDate(w.(got := w.got + bytes), stream + bytes)
  {
    assert (stream + bytes)[w.from..w.from + |w.got|] == stream[w.from..w.from + |w.got|];
  }

  lemma PrintedFaithful(t: Term, bytes: seq<byte>)
    requires Faithful(t) && |bytes| <= SCROLLBACK_BYTES
    ensures Faithful(Printed(t, bytes))
  {
    hide Tail, Pushed, IsStretch, UpToDate;
    PushedTail(t.stream, bytes);
    forall c | c in t.windows
      ensures IsStretch(t.windows[c], t.stream + bytes)
      ensures UpToDate(t.windows[c], t.stream) ==>
        UpToDate(t.windows[c].(got := t.windows[c].got + bytes), t.stream + bytes)
    {
      StretchGrows(t.windows[c], t.stream, bytes);
    }
    forall w, s | UpToDate(w, s) ensures IsStretch(w, s) { UpToDateIs(w, s); }
  }

  lemma UpToDateIs(w: Window, stream: seq<byte>)
    requires UpToDate(w, stream)
    ensures IsStretch(w, stream)
  {
  }

  lemma StepFaithful(t: Term, e: Event)
    requires Kept(t) && Faithful(t) && Enabled(t, e)
    ensures Faithful(Step(t, e))
  {
    hide Tail, Pushed, IsStretch, UpToDate, Replay;
    match e {
      case Attach(session, since) =>
        ReplayUpToDate(t.stream, since);
        UpToDateIs(Replay(t.ring, since), t.stream);
      case Output(bytes) => PrintedFaithful(t, bytes);
      case _ =>
    }
  }

  /* ---- Over every run ---- */

  ghost predicate Runs(es: seq<Event>)
    decreases |es|, 0
  {
    es == [] || (Runs(Before(es)) && Enabled(After(Before(es)), Last(es)))
  }

  function Before(es: seq<Event>): seq<Event>
    requires es != []
  {
    es[..|es| - 1]
  }

  function Last(es: seq<Event>): Event
    requires es != []
  {
    es[|es| - 1]
  }

  ghost function After(es: seq<Event>): Term
    requires Runs(es)
    decreases |es|, 1
  {
    if es == [] then SPAWNED else Step(After(Before(es)), Last(es))
  }

  lemma {:induction false} RunKept(es: seq<Event>)
    requires Runs(es)
    ensures Kept(After(es)) && Faithful(After(es))
    decreases |es|
  {
    if es != [] {
      hide Kept, Faithful, Step, Enabled;
      RunKept(Before(es));
      StepKept(After(Before(es)), Last(es));
      StepFaithful(After(Before(es)), Last(es));
    }
  }

  /**
   In every run a shell has an owner exactly while a window draws it, no timer
   runs while one does, and it is hung up at most once.
   */
  lemma OwnerIsWindow(es: seq<Event>)
    requires Runs(es)
    ensures var t := After(es);
      && (t.ctx.Some? <==> t.owner.Some?)
      && (t.ctx.Some? ==> !t.grace)
      && |t.hungUp| <= 1
  {
    RunKept(es);
  }

  lemma {:induction false} PrefixRuns(es: seq<Event>, n: nat)
    requires Runs(es) && n <= |es|
    ensures Runs(es[..n])
    decreases |es|
  {
    if n == |es| {
      assert es[..n] == es;
    } else {
      PrefixRuns(Before(es), n);
      assert Before(es)[..n] == es[..n];
    }
  }

  /** Event `j` left the shell alone with the timer running, and no window has come since. */
  ghost predicate LeftAlone(es: seq<Event>, j: nat)
    requires Runs(es)
  {
    && j < |es|
    && Runs(es[..j])
    && (forall k :: j < k < |es| ==> !es[k].Attach?)
    && var t := After(es[..j]);
       && es[j].OnClose? && es[j].lost && t.ctx == Some(es[j].window) && !t.keep && t.alive
       && es[j].wait.Seconds? && es[j].wait.n > 0
  }

  lemma LeftAloneStill(es: seq<Event>, j: nat)
    requires Runs(es) && es != [] && !Last(es).Attach? && LeftAlone(Before(es), j)
    ensures LeftAlone(es, j)
  {
    assert Before(es)[..j] == es[..j] && Before(es)[j] == es[j];
    forall k | j < k < |es| ensures !es[k].Attach? {
      if k < |es| - 1 { assert Before(es)[k] == es[k]; }
    }
  }

  /** What starts the timer. */
  lemma TimerStarts(t: Term, e: Event)
    requires Enabled(t, e) && !t.grace && Step(t, e).grace
    ensures e.OnClose? && e.lost && t.ctx == Some(e.window) && !t.keep && t.alive && e.wait.Seconds? && e.wait.n > 0
  {
    hide Replay, Pushed;
  }

  /** The loss of the window that held the shell starts it, whenever there is a grace and no wish to be kept. */
  predicate StartsTimer(t: Term, e: Event) {
    e.OnClose? && e.lost && t.ctx == Some(e.window) && t.alive && !t.keep && e.wait.Seconds? && e.wait.n > 0
  }

  /** When the timer starts, and what stops it: a window, its running out, or the shell's own end. */
  lemma TimerExactly(t: Term, e: Event)
    requires Kept(t) && Enabled(t, e)
    ensures !t.grace ==> (Step(t, e).grace <==> StartsTimer(t, e))
    ensures t.grace ==> (!Step(t, e).grace <==> e.Attach? || e.Expires? || e.Exits?)
  {
    hide Replay, Pushed;
  }

  /** A shell lives on through everything but its own end and being hung up; only its owner says whether to keep it. */
  lemma LivesExactly(t: Term, e: Event)
    requires Kept(t) && Enabled(t, e)
    ensures t.alive ==> (!Step(t, e).alive <==> e.Exits? || exists cause :: HangsUp(t, e, cause))
    ensures !t.alive ==> !Step(t, e).alive
    ensures Step(t, e).keep == if e.Keep? then e.keep else t.keep
    ensures t.ctx.Some? && Step(t, e).ctx.None? <==> e.OnClose? && t.ctx == Some(e.window)
    ensures e.Attach? ==> Step(t, e).ctx == Some(t.next) && Step(t, e).owner == Some(e.session)
    ensures !e.Attach? && Step(t, e).ctx.Some? ==> Step(t, e).ctx == t.ctx && Step(t, e).owner == t.owner
  {
    hide Replay, Pushed;
    var u := Step(t, e);
    if e.OnClose? && t.alive && !u.alive {
      assert HangsUp(t, e, if e.lost then Lost(e.window) else Closed(e.window));
    }
    if e.Expires? && t.alive { assert HangsUp(t, e, Expired); }
  }

  lemma AttachStopsTimer(t: Term, e: Event)
    requires Enabled(t, e) && e.Attach?
    ensures !Step(t, e).grace
  {
    hide Replay;
  }

  /** A running timer was started by the loss of the window that held the shell. */
  lemma {:induction false} TimerSince(es: seq<Event>) returns (j: nat)
    requires Runs(es) && After(es).grace
    ensures LeftAlone(es, j)
    decreases |es|
  {
    hide Step, Enabled;
    var b, e := Before(es), Last(es);
    if e.Attach? { AttachStopsTimer(After(b), e); }
    if After(b).grace {
      j := TimerSince(b);
      LeftAloneStill(es, j);
    } else {
      TimerStarts(After(b), e);
      j := |es| - 1;
      assert es[..j] == b;
    }
  }

  /** What an event must find for it to hang the shell up. */
  predicate HangsUp(t: Term, e: Event, cause: Cause) {
    t.alive &&
    match cause
    case Closed(c) => e.OnClose? && e.window == c && !e.lost && t.ctx == Some(c)
    case Lost(c) =>
      && e.OnClose? && e.window == c && e.lost && t.ctx == Some(c) && !t.keep
      && e.wait.Seconds? && e.wait.n <= 0
    case Expired => e.Expires? && t.ctx.None?
  }

  /** An event hangs a shell up exactly if it is one of these. */
  lemma HungUpExactly(t: Term, e: Event, cause: Cause)
    requires Kept(t) && Enabled(t, e)
    ensures Step(t, e).hungUp == t.hungUp + [cause] <==> HangsUp(t, e, cause)
    ensures Step(t, e).hungUp == t.hungUp || |Step(t, e).hungUp| == |t.hungUp| + 1
    ensures |Step(t, e).hungUp| == |t.hungUp| + 1 ==> exists c :: Step(t, e).hungUp == t.hungUp + [c]
  {
    hide Pushed, Replay;
    var u := Step(t, e);
    if u.hungUp == t.hungUp + [cause] { assert u.hungUp[|t.hungUp|] == cause; }
    if |u.hungUp| == |t.hungUp| + 1 { assert u.hungUp == t.hungUp + [u.hungUp[|t.hungUp|]]; }
  }

  /** Why a shell was hung up, as the run shows it at its `i`-th event. */
  ghost predicate Because(es: seq<Event>, i: nat, cause: Cause)
    requires Runs(es)
  {
    && i < |es|
    && Runs(es[..i])
    && HangsUp(After(es[..i]), es[i], cause)
    && (cause.Expired? ==> exists j :: LeftAlone(es[..i], j))
  }

  /**
   A shell is hung up only because the window that held it was closed, or was
   lost with no grace and not to be kept, or stayed away until the timer that
   its loss had started ran out.
   */
  lemma {:induction false} HungUpBecause(es: seq<Event>) returns (i: nat)
    requires Runs(es) && After(es).hungUp != []
    ensures |After(es).hungUp| == 1 && Because(es, i, After(es).hungUp[0])
    decreases |es|
  {
    hide Kept, Faithful, Step, HangsUp, LeftAlone;
    var b, e := Before(es), Last(es);
    RunKept(b);
    OwnerIsWindow(es);
    HungUpExactly(After(b), e, After(es).hungUp[0]);
    if After(b).hungUp != [] {
      i := HungUpBecause(b);
      assert b[..i] == es[..i] && b[i] == es[i];
    } else {
      i := |es| - 1;
      assert es[..i] == b;
      assert [] + [After(es).hungUp[0]] == After(es).hungUp;
      if After(es).hungUp[0].Expired? { ExpiredRan(After(b), e); var j := TimerSince(b); }
    }
  }

  lemma ExpiredRan(t: Term, e: Event)
    requires Enabled(t, e) && HangsUp(t, e, Expired)
    ensures t.grace
  {
  }

  /** A newer window never costs the shell its life, and the close of one it displaced changes nothing. */
  lemma DisplacedHarmless(t: Term, session: nat, since: nat, lost: bool, wait: Wait)
    requires Kept(t) && t.alive && t.ctx.Some?
    ensures var u := Attached(t, session, since);
      && u.alive && u.hungUp == t.hungUp && u.ctx == Some(t.next) && u.owner == Some(session)
      && CloseWindow(u, t.ctx.value, lost, wait) == u
  {
  }

  /** Alone and without a timer, nothing but its own exit ends a shell. */
  lemma {:induction false} WaitsAlone(es: seq<Event>, n: nat)
    requires Runs(es) && n <= |es| && Runs(es[..n])
    requires After(es[..n]).alive && After(es[..n]).ctx.None? && !After(es[..n]).grace
    requires forall k :: n <= k < |es| ==> !es[k].Attach? && !es[k].Exits?
    ensures After(es).alive && After(es).ctx.None? && !After(es).grace
    decreases |es|
  {
    if n == |es| {
      assert es[..n] == es;
    } else {
      assert Before(es)[..n] == es[..n];
      WaitsAlone(Before(es), n);
      RunKept(Before(es));
    }
  }

  /* ---- What a window has drawn ---- */

  /**
   Whatever came and went, the bytes given to a window are an unbroken stretch
   of the shell's output, which for the current one reaches to its end.
   */
  lemma WindowsSeeTheStream(es: seq<Event>, c: nat)
    requires Runs(es) && c in After(es).windows
    ensures var t := After(es);
      && IsStretch(t.windows[c], t.stream)
      && (t.ctx == Some(c) ==> UpToDate(t.windows[c], t.stream))
  {
    RunKept(es);
  }

  /**
   A window that comes back and says how much it has drawn gets exactly what
   it missed, if that is still held: what it had with what it is given is one
   stretch that reaches to the end.
   */
  lemma ComesBack(es: seq<Event>, c: nat, session: nat)
    requires Runs(es) && c in After(es).windows && After(es).alive
    ensures var t := After(es);
      var w := t.windows[c];
      var since := w.from + |w.got|;
      && since >= 0
      && var back := Attached(t, session, since).windows[t.next];
         && (back.from == since <==> since >= |t.stream| - 1048576)
         && (back.from == since ==>
               back.offset == since && UpToDate(Window(w.offset, w.from, w.got + back.got), t.stream))
         && UpToDate(back, t.stream) && back.offset == back.from
  {
    hide Tail, Replay, Runs, After;
    RunKept(es);
    var t := After(es);
    var w := t.windows[c];
    var since := w.from + |w.got|;
    ReplayUpToDate(t.stream, since);
    BackFrom(t.stream, since);
    JoinsUp(w, Replay(t.ring, since), t.stream);
  }

  lemma JoinsUp(w: Window, back: Window, stream: seq<byte>)
    requires IsStretch(w, stream) && UpToDate(back, stream)
    ensures back.from == w.from + |w.got| ==> UpToDate(Window(w.offset, w.from, w.got + back.got), stream)
  {
  }

  lemma BackFrom(stream: seq<byte>, since: nat)
    requires since <= |stream|
    ensures var v := View(Tail(stream, SCROLLBACK_BYTES), |stream|);
      Replay(v, since).from == since <==> since >= |stream| - Min(|stream|, SCROLLBACK_BYTES)
  {
    CutAtALine(stream, SCROLLBACK_BYTES);
    SinceTail(stream, since);
    hide Tail, AllOf, SinceOf;
  }
}
