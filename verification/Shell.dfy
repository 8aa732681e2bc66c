/** A shell as server/src/services/pty.ts keeps it, with its scrollback. */
module Shell {
  import opened Bytes
  import opened RingSpec = Ring
  import opened Steps = Terminal

  class Shell {
    var alive: bool
    var ctx: Option<nat>
    var owner: Option<nat>
    var grace: bool
    var keep: bool
    const ring: RingSpec.Ring
    var windows: map<nat, Window>
    var next: nat
    ghost var stream: seq<byte>
    ghost var hungUp: seq<Cause>

    ghost predicate Valid()
      reads this, ring, ring.buf
    {
      ring.Valid() && ring.limit == SCROLLBACK_BYTES
    }

    ghost function Shown(): Term
      reads this, ring, ring.buf
      requires Valid()
    {
      Term(alive, ctx, owner, grace, keep, ring.Shown(), stream, windows, next, hungUp)
    }

    constructor ()
      ensures Valid() && fresh(ring) && fresh(ring.buf) && Shown() == SPAWNED
    {
      alive, ctx, owner, grace, keep := true, None, None, false, false;
      windows, next, stream, hungUp := map[], 0, [], [];
      ring := new RingSpec.Ring(SCROLLBACK_BYTES);
    }

    method HangUp(ghost cause: Cause)
      requires Valid()
      modifies `alive, `hungUp
      ensures Valid() && Shown() == Steps.HangUp(old(Shown()), cause)
    {
      if !alive { return; }
      alive := false;
      hungUp := hungUp + [cause];
    }

    method OnClose(window: nat, lost: bool, wait: Wait)
      requires Valid()
      modifies `alive, `hungUp, `ctx, `owner, `grace
      ensures Valid() && Shown() == CloseWindow(old(Shown()), window, lost, wait)
    {
      if ctx != Some(window) { return; }
      ctx, owner := None, None;
      if !alive { return; }
      if lost && (keep || Positive(wait)) {
        if !keep && wait.Seconds? { grace := true; }
        return;
      }
      HangUp(if lost then Lost(window) else Closed(window));
    }

    /** The window's own number is handed out here; its closing is the previous one's `onClose`. */
    method Attach(session: nat, since: nat) returns (window: nat)
      requires Valid() && alive
      modifies this
      ensures Valid() && window == old(next)
      ensures Shown() == Attached(old(Shown()), session, since)
    {
      hide SinceOf, AllOf;
      var previous := ctx;
      if previous.Some? {
        ctx, owner := None, None;
        OnClose(previous.value, false, Forever);
      }
      grace := false;
      window := next;
      ctx, owner, next := Some(window), Some(session), next + 1;
      var replay := ring.Since(since);
      if replay.Some? {
        windows := windows[window := Window(since, Min(since, ring.end), replay.value)];
      } else {
        var bytes, offset := ring.All();
        windows := windows[window := Window(offset, offset, bytes)];
      }
    }

    method Output(bytes: seq<byte>)
      requires Valid() && |bytes| <= SCROLLBACK_BYTES
      modifies `windows, `stream, ring, ring.buf
      ensures Valid() && (ring.buf == old(ring.buf) || fresh(ring.buf))
      ensures Shown() == Printed(old(Shown()), bytes)
    {
      hide Pushed;
      ring.Push(bytes);
      stream := stream + bytes;
      if ctx.Some? && ctx.value in windows {
        var w := windows[ctx.value];
        windows := windows[ctx.value := w.(got := w.got + bytes)];
      }
    }
  }
}
