/** What the binary stream promises, over whole runs. */
module SliceResults {
  import opened Bytes
  import opened SliceWire
  import opened SessionSteps
  import opened Browser
  import opened SliceProtocol
  import opened SliceSafety
  import opened SliceRuns

  predicate Legal(s: System, es: seq<Event>)
    requires Sound(s.server)
    decreases |es|
  {
    es == [] || (Enabled(s, es[0]) && Legal(Step(s, es[0]), es[1..]))
  }

  function After(s: System, es: seq<Event>): (t: System)
    requires Sound(s.server) && Legal(s, es)
    ensures Sound(t.server)
    decreases |es|
  {
    if es == [] then s else After(Step(s, es[0]), es[1..])
  }

  predicate Delivers(s: System, id: nat) {
    Log(s.page.delivered, id) <= Log(s.given, id)
  }

  lemma StepDelivers(s: System, e: Event, id: nat)
    requires Safe(s) && Enabled(s, e) && Delivers(s, id)
    ensures Delivers(Step(s, e), id)
  {
    StepSafe(s, e);
    var t := Step(s, e);
    assert ChannelSafe(t, id);
    if id !in t.page.channels {
      assert Log(t.page.delivered, id) == Log(s.page.delivered, id) by {
        if e.PageReads? && PieceFor(s.server.wire[0], id) == [] {
          PageReadsOther(s.page, s.server.wire[0], id);
        }
      }
    }
  }

  lemma {:induction false} SafeFrom(s: System, es: seq<Event>)
    requires Safe(s) && Legal(s, es) && forall id :: Delivers(s, id)
    ensures Safe(After(s, es)) && forall id :: Delivers(After(s, es), id)
    decreases |es|
  {
    if es != [] {
      StepSafe(s, es[0]);
      forall id ensures Delivers(Step(s, es[0]), id) { StepDelivers(s, es[0], id); }
      SafeFrom(Step(s, es[0]), es[1..]);
    }
  }

  lemma StartSafe()
    ensures Safe(Start)
  {
    forall id ensures ChannelSafe(Start, id) { }
  }

  /**
   In every run, what a channel's reader has been given is a prefix of the
   payloads sent on the channel: in order, each whole, none twice, none of
   another channel, whatever was closed in the middle of what.
   */
  lemma DeliveredInOrder(es: seq<Event>, id: nat)
    requires Legal(Start, es)
    ensures var s := After(Start, es); Log(s.page.delivered, id) <= Log(s.given, id)
  {
    StartSafe();
    SafeFrom(Start, es);
    assert Delivers(After(Start, es), id);
  }

  /**
   In every run the bytes the server counts as unconfirmed are those of the
   pieces on their way to the page and of the confirmations on their way back.
   */
  lemma CreditInTransit(es: seq<Event>)
    requires Legal(Start, es)
    ensures var s := After(Start, es);
      && Total(s.server.unconfirmed) == PieceBytes(s.server.wire) + CreditBytes(s.page.up)
      && CREDIT_WINDOW_MIN <= s.server.window <= CREDIT_WINDOW_MAX
  {
    StartSafe();
    SafeFrom(Start, es);
  }

  lemma {:induction false} SomePiece(wire: seq<DownMsg>)
    requires PieceBytes(wire) > 0
    ensures exists m :: m in wire && CreditOf(m) > 0
  {
    if CreditOf(wire[0]) > 0 {
      assert wire[0] in wire;
    } else {
      SomePiece(wire[1..]);
      var m :| m in wire[1..] && CreditOf(m) > 0;
      assert m in wire;
    }
  }

  lemma {:induction false} SomeCredit(up: seq<UpMsg>)
    requires CreditBytes(up) > 0
    ensures exists m :: m in up && m.TookBytes?
  {
    if up[0].TookBytes? {
      assert up[0] in up;
    } else {
      SomeCredit(up[1..]);
      var m :| m in up[1..] && m.TookBytes?;
      assert m in up;
    }
  }

  /** A queue on a healthy socket always has a callback, a piece or a confirmation to wait for. */
  lemma SenderNeverStuck(es: seq<Event>)
    requires Legal(Start, es)
    ensures var s := After(Start, es);
      Healthy(s.server) && s.server.bulk != [] ==>
        || s.server.flight.Some?
        || (exists m :: m in s.server.wire && CreditOf(m) > 0)
        || (exists m :: m in s.page.up && m.TookBytes?)
  {
    StartSafe();
    SafeFrom(Start, es);
    var s := After(Start, es);
    if Healthy(s.server) && s.server.bulk != [] && s.server.flight.None? {
      if PieceBytes(s.server.wire) > 0 {
        SomePiece(s.server.wire);
      } else {
        SomeCredit(s.page.up);
      }
    }
  }

  /** Once the page has confirmed anything, a piece that goes out overshoots the window by less than itself. */
  lemma OvershootsByOnePiece(s: State, now: int)
    requires Sound(s) && s.credited && |Pump(s, now).wire| > |s.wire|
    ensures Total(Pump(s, now).unconfirmed) < s.window + SLICE_BYTES + SLICE_HEADER_BYTES
  {
    var p := NextPiece(s);
    PumpedFrame(s, now, 0);
    DecodeSlice(s.bulk[0].id, p.bytes, p.final);
    TotalSnoc(s.unconfirmed, Unconfirmed(SLICE_HEADER_BYTES + |p.bytes|, now));
  }

  /* ---- Everything sent arrives ---- */

  /** Nothing is under way. */
  predicate Quiet(s: System) {
    s.server.flight.None? && s.server.wire == [] && s.page.up == []
  }

  /** The connection works and nobody has closed the channel. */
  predicate Live(s: System, id: nat) {
    Healthy(s.server) && s.page.open && id in s.page.channels && id in s.server.channels
  }

  lemma QuietMeansDelivered(s: System, id: nat)
    requires Safe(s) && Quiet(s) && Live(s, id)
    ensures s.server.bulk == []
    ensures Log(s.page.delivered, id) == Log(s.given, id)
    ensures HeldFor(s.page.held, id) == []
  {
    assert ChannelSafe(s, id);
    assert Coming(s.server, id) == [];
  }

  /** The pieces a payload still has to be cut into. */
  function PiecesLeft(u: Upload): nat {
    Max(1, (|u.payload| - u.at + SLICE_BYTES - 1) / SLICE_BYTES)
  }

  function BulkWork(bulk: seq<Upload>): nat {
    if bulk == [] then 0 else PiecesLeft(bulk[0]) + BulkWork(bulk[1..])
  }

  function UpWork(up: seq<UpMsg>): nat {
    if up == [] then 0 else (if up[0].TookBytes? then 1 else 4) + UpWork(up[1..])
  }

  function ServerWork(s: State): nat
    requires Sound(s)
  {
    4 * BulkWork(Remaining(s)) + (if s.flight.Some? then 1 else 0) + 2 * |s.wire|
  }

  function Work(s: System): nat
    requires Sound(s.server)
  {
    ServerWork(s.server) + UpWork(s.page.up)
  }

  /** The socket and the two ends doing what they do by themselves. */
  predicate Internal(e: Event) {
    e.PieceWritten? || e.ServerReads? || e.PageReads?
  }

  lemma {:induction false} WorkWithout(bulk: seq<Upload>, gone: set<nat>)
    ensures BulkWork(Without(bulk, gone)) <= BulkWork(bulk)
  {
    if bulk == [] {
    } else {
      WorkWithout(bulk[1..], gone);
      if bulk[0].id !in gone {
        assert ([bulk[0]] + Without(bulk[1..], gone))[1..] == Without(bulk[1..], gone);
      } else {
        assert Without(bulk, gone) == Without(bulk[1..], gone);
      }
    }
  }

  lemma {:induction false} UpWorkSnoc(up: seq<UpMsg>, m: UpMsg)
    ensures UpWork(up + [m]) == UpWork(up) + (if m.TookBytes? then 1 else 4)
  {
    if up == [] {
      assert [m][1..] == [];
    } else {
      assert (up + [m])[1..] == up[1..] + [m];
      UpWorkSnoc(up[1..], m);
    }
  }

  lemma PumpWork(s: State, now: int)
    requires Sound(s)
    ensures ServerWork(Pump(s, now)) <= ServerWork(s)
  {
    if Sends(s) {
      var t := Pump(s, now);
      var u := s.bulk[0];
      assert BulkWork(s.bulk) == PiecesLeft(u) + BulkWork(s.bulk[1..]);
      if !t.flight.value.last {
        assert Remaining(t)[1..] == s.bulk[1..];
        assert Remaining(t)[0] == u.(at := u.at + SLICE_BYTES);
        assert PiecesLeft(u.(at := u.at + SLICE_BYTES)) == PiecesLeft(u) - 1;
      }
    }
  }

  lemma CloseWork(s: State, id: nat)
    requires Sound(s)
    ensures ServerWork(CloseChannel(s, id)) <= ServerWork(s) + 2
  {
    if s.bulk != [] {
      var p := Purge(s.bulk, {id});
      WorkWithout(s.bulk[1..], {id});
      assert p[1..] == Without(s.bulk[1..], {id});
      assert BulkWork(p) == PiecesLeft(p[0]) + BulkWork(p[1..]);
      if s.flight.Some? && !s.flight.value.last {
        var t := s.(bulk := p);
        assert Remaining(t)[1..] == p[1..] && Remaining(s)[1..] == s.bulk[1..];
        assert Remaining(t)[0] == Remaining(s)[0];
      }
    }
  }

  lemma WrittenWork(s: State, now: int)
    requires Sound(s) && s.flight.Some?
    ensures ServerWork(SendTaken(s, now)) < ServerWork(s)
  {
    var m := s.(flight := None, bulk := Advanced(s, s.flight.value));
    var head := s.bulk[0].(at := s.flight.value.end);
    assert ([head] + s.bulk[1..])[1..] == s.bulk[1..];
    assert BulkWork(m.bulk) <= BulkWork(Remaining(s));
    PumpWork(m, now);
  }

  /** Each thing the connection does by itself leaves it less to do. */
  lemma InternalStepsRunOut(s: System, e: Event)
    requires Sound(s.server) && Enabled(s, e) && Internal(e)
    ensures Work(Step(s, e)) < Work(s)
  {
    match e {
      case PieceWritten(now) => WrittenWork(s.server, now);
      case PageReads =>
        ReceiveConfirms(s.page, s.server.wire[0]);
        UpWorkSnoc(s.page.up, TookBytes(CreditOf(s.server.wire[0])));
      case ServerReads(known, now) =>
        match s.page.up[0] {
          case Open(id) =>
          case Close(id) => CloseWork(s.server, id);
          case TookBytes(n) =>
            if n > 0 {
              var r := Settle(s.server.unconfirmed, n, s.server.window, now);
              PumpWork(s.server.(credited := true, unconfirmed := r.0, window := r.1), now);
            }
        }
    }
  }

  predicate AllInternal(es: seq<Event>) {
    forall i :: 0 <= i < |es| ==> Internal(es[i])
  }

  /** However the sockets and callbacks are scheduled, they come to rest. */
  lemma {:induction false} RestsWithin(s: System, es: seq<Event>)
    requires Sound(s.server) && Legal(s, es) && AllInternal(es)
    ensures |es| <= Work(s)
    decreases |es|
  {
    if es != [] {
      InternalStepsRunOut(s, es[0]);
      RestsWithin(Step(s, es[0]), es[1..]);
    }
  }

  /** Something can happen by itself for as long as a working connection is not at rest. */
  lemma NotQuietCanMove(s: System, now: int)
    requires Sound(s.server) && s.page.open && !Quiet(s)
    ensures exists e :: Internal(e) && Enabled(s, e)
  {
    if s.server.flight.Some? {
      assert Internal(PieceWritten(now)) && Enabled(s, PieceWritten(now));
    } else if s.server.wire != [] {
      assert Internal(PageReads) && Enabled(s, PageReads);
    } else {
      assert Internal(ServerReads(true, now)) && Enabled(s, ServerReads(true, now));
    }
  }

  lemma {:induction false} SafeAfter(s: System, es: seq<Event>)
    requires Safe(s) && Legal(s, es)
    ensures Safe(After(s, es))
    decreases |es|
  {
    if es != [] {
      StepSafe(s, es[0]);
      SafeAfter(Step(s, es[0]), es[1..]);
    }
  }

  /**
   Take any run, and let the connection go on by itself in any order until
   nothing is left to happen, as it must: what was sent on a channel nobody
   has closed has then all been delivered.
   */
  lemma EverythingArrives(es: seq<Event>, more: seq<Event>, id: nat)
    requires Legal(Start, es) && Legal(After(Start, es), more) && AllInternal(more)
    ensures |more| <= Work(After(Start, es))
    ensures var t := After(After(Start, es), more);
      t.page.open && !(exists e :: Internal(e) && Enabled(t, e)) && Live(t, id) ==>
        Log(t.page.delivered, id) == Log(t.given, id)
  {
    StartSafe();
    SafeFrom(Start, es);
    SafeAfter(After(Start, es), more);
    RestsWithin(After(Start, es), more);
    var t := After(After(Start, es), more);
    if t.page.open && !(exists e :: Internal(e) && Enabled(t, e)) && Live(t, id) {
      if !Quiet(t) { NotQuietCanMove(t, 0); }
      QuietMeansDelivered(t, id);
    }
  }
}
