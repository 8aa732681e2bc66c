/** `Safe` holds in every run of the stream, and what follows from it. */
module SliceSafety {
  import opened Bytes
  import opened SliceWire
  import opened SessionSteps
  import opened Browser
  import opened SliceProtocol

  /**
   What a change of the server's state must leave alone for channel `id`,
   whose reader holds `h`.
   */
  predicate Kept(s: State, t: State, id: nat, h: seq<byte>)
    requires Sound(s) && Sound(t)
  {
    && (id in t.channels <==> id in s.channels)
    && (Healthy(t) ==> Healthy(s))
    && (Closed(id) in t.wire <==> Closed(id) in s.wire)
    && (Closed(id) in s.wire ==> Arriving(t.wire, id) == Arriving(s.wire, id))
    && (Count(s.bulk, id) == 0 ==> Count(t.bulk, id) == 0 && Arriving(t.wire, id) == Arriving(s.wire, id))
    && (!Healthy(t) ==> Arriving(t.wire, id) == Arriving(s.wire, id))
    && (Healthy(t) && id in s.channels && Closed(id) !in s.wire ==>
          && Emitted(h, Coming(t, id)) == Emitted(h, Coming(s, id))
          && Residue(h, Coming(t, id)) == Residue(h, Coming(s, id)))
  }

  lemma CompleteInOrder(s: System, id: nat)
    requires Sound(s.server) && Complete(s, id)
    ensures InOrder(s, id)
  {
    EmittedSplit(HeldFor(s.page.held, id), Arriving(s.server.wire, id), Queued(Remaining(s.server), id));
  }

  /** A change of the server alone that keeps the channel's stream keeps its promises. */
  lemma ChannelKept(s: System, t: System, id: nat)
    requires Sound(s.server) && Sound(t.server) && ChannelSafe(s, id)
    requires t == s.(server := t.server)
    requires Kept(s.server, t.server, id, HeldFor(s.page.held, id))
    ensures ChannelSafe(t, id)
  {
    if id in t.page.channels && Healthy(t.server) && id in t.server.channels {
      assert Complete(t, id);
      CompleteInOrder(t, id);
    }
  }

  /** Cutting a payload in two changes nothing for the reader. */
  lemma CutPayload(h: seq<byte>, a: seq<Piece>, x: seq<byte>, y: seq<byte>, b: seq<Piece>)
    ensures Emitted(h, a + [Piece(x + y, true)] + b) == Emitted(h, a + [Piece(x, false)] + ([Piece(y, true)] + b))
    ensures Residue(h, a + [Piece(x + y, true)] + b) == Residue(h, a + [Piece(x, false)] + ([Piece(y, true)] + b))
  {
    var whole, cut := [Piece(x + y, true)] + b, [Piece(x, false)] + ([Piece(y, true)] + b);
    assert a + [Piece(x + y, true)] + b == a + whole;
    assert a + [Piece(x, false)] + ([Piece(y, true)] + b) == a + cut;
    EmittedSplit(h, a, whole);
    EmittedSplit(h, a, cut);
    var r := Residue(h, a);
    assert whole[1..] == b && cut[1..] == [Piece(y, true)] + b && ([Piece(y, true)] + b)[1..] == b;
    assert r + (x + y) == (r + x) + y;
  }

  predicate Sends(s: State) {
    s.flight.None? && s.bulk != [] && Healthy(s) && !(s.credited && Total(s.unconfirmed) >= s.window)
  }

  /** The piece the pump sends next. */
  function NextPiece(s: State): (p: Piece)
    requires s.bulk != []
  {
    var u := s.bulk[0];
    var end := Min(u.at + SLICE_BYTES, |u.payload|);
    Piece(u.payload[u.at..end], end >= |u.payload|)
  }

  function NextFrame(s: State): DownMsg
    requires s.bulk != []
  {
    Binary(SliceOf(s.bulk[0].id, NextPiece(s).bytes, NextPiece(s).final))
  }

  /** As a reader of `id` sees it. */
  lemma NextFrameFor(s: State, id: nat)
    requires s.bulk != [] && s.bulk[0].id < TWO_32
    ensures PieceFor(NextFrame(s), id) == if s.bulk[0].id == id then [NextPiece(s)] else []
  {
    DecodeSlice(s.bulk[0].id, NextPiece(s).bytes, NextPiece(s).final);
  }

  lemma PumpedFrame(s: State, now: int, id: nat)
    requires Sound(s) && Sends(s)
    ensures var t := Pump(s, now);
      && t.wire == s.wire + [NextFrame(s)]
      && Arriving(t.wire, id) ==
         if Closed(id) in s.wire || PieceFor(NextFrame(s), id) == [] then Arriving(s.wire, id)
         else Arriving(s.wire, id) + PieceFor(NextFrame(s), id)
  {
    assert Pump(s, now).wire == s.wire + [NextFrame(s)];
    ArrivingSnoc(s.wire, NextFrame(s), id);
  }

  lemma PumpOthers(s: State, now: int, id: nat)
    requires Sound(s) && Sends(s) && s.bulk[0].id < TWO_32 && s.bulk[0].id != id
    ensures Queued(Remaining(Pump(s, now)), id) == Queued(Remaining(s), id)
  {
    var t := Pump(s, now);
    if !t.flight.value.last {
      assert Remaining(t)[1..] == s.bulk[1..];
    }
  }

  lemma PumpOwn(s: State, now: int, id: nat, h: seq<byte>)
    requires Sound(s) && Sends(s) && s.bulk[0].id < TWO_32 && s.bulk[0].id == id
    requires Closed(id) !in s.wire
    ensures Emitted(h, Coming(Pump(s, now), id)) == Emitted(h, Coming(s, id))
    ensures Residue(h, Coming(Pump(s, now), id)) == Residue(h, Coming(s, id))
  {
    hide Emitted, Residue, Arriving, PieceFor, SliceOf, NextFrame;
    PumpedFrame(s, now, id);
    NextFrameFor(s, id);
    var t := Pump(s, now);
    var u, f := s.bulk[0], t.flight.value;
    var piece, left := u.payload[u.at..f.end], u.payload[f.end..];
    var a, rest := Arriving(s.wire, id), Queued(s.bulk[1..], id);
    assert piece + left == u.payload[u.at..];
    assert Coming(s, id) == a + [Piece(piece + left, true)] + rest;
    if f.last {
      assert piece + left == piece;
      assert Coming(t, id) == a + [Piece(piece, true)] + rest;
    } else {
      assert Remaining(t)[1..] == s.bulk[1..];
      assert Queued(Remaining(t), id) == [Piece(left, true)] + rest;
      CutPayload(h, a, piece, left, rest);
    }
  }

  lemma PumpKeeps(s: State, now: int, id: nat, h: seq<byte>)
    requires Sound(s)
    requires s.bulk != [] ==> s.bulk[0].id < TWO_32
    ensures Kept(s, Pump(s, now), id, h)
  {
    if Sends(s) {
      PumpedFrame(s, now, id);
      NextFrameFor(s, id);
      if s.bulk[0].id != id {
        PumpOthers(s, now, id);
      } else if Closed(id) !in s.wire {
        PumpOwn(s, now, id, h);
      }
    }
  }

  /** The queue moves on when the piece is taken, but what remains of it was settled when the piece was sent. */
  lemma AdvanceKeeps(s: State, f: Flight, id: nat, h: seq<byte>)
    requires Sound(s) && s.flight == Some(f)
    ensures Kept(s, s.(flight := None, bulk := Advanced(s, f)), id, h)
  {
    var t := s.(flight := None, bulk := Advanced(s, f));
    var head, rest := s.bulk[0], s.bulk[1..];
    assert ([head.(at := f.end)] + rest)[1..] == rest;
    assert Count(t.bulk, id) <= Count(s.bulk, id);
    if id in s.channels && !f.last && head.id !in s.channels {
      assert Queued(Remaining(s), id) == Queued(rest, id);
    }
  }

  lemma KeptTrans(s: State, m: State, t: State, id: nat, h: seq<byte>)
    requires Sound(s) && Sound(m) && Sound(t)
    requires Kept(s, m, id, h) && Kept(m, t, id, h) && Healthy(m) == Healthy(t)
    ensures Kept(s, t, id, h)
  {
  }

  lemma TakenKeeps(s: State, now: int, id: nat, h: seq<byte>)
    requires Sound(s) && s.flight.Some?
    requires forall u :: u in s.bulk ==> u.id < TWO_32
    ensures Kept(s, SendTaken(s, now), id, h)
  {
    var m := s.(flight := None, bulk := Advanced(s, s.flight.value));
    AdvanceKeeps(s, s.flight.value, id, h);
    assert forall u :: u in m.bulk ==> u.id < TWO_32;
    PumpKeeps(m, now, id, h);
    KeptTrans(s, m, SendTaken(s, now), id, h);
  }

  lemma TookKeeps(s: State, n: int, now: int, id: nat, h: seq<byte>)
    requires Sound(s)
    requires s.bulk != [] ==> s.bulk[0].id < TWO_32
    ensures Kept(s, Took(s, n, now), id, h)
  {
    if n > 0 {
      var r := Settle(s.unconfirmed, n, s.window, now);
      var m := s.(credited := true, unconfirmed := r.0, window := r.1);
      assert Remaining(m) == Remaining(s);
      PumpKeeps(m, now, id, h);
      KeptTrans(s, m, Took(s, n, now), id, h);
    }
  }

  lemma CloseKeepsOthers(s: State, gone: nat, id: nat, h: seq<byte>)
    requires Sound(s) && id != gone
    ensures Kept(s, CloseChannel(s, gone), id, h)
  {
    if gone in s.channels {
      ArrivingSnoc(s.wire, Closed(gone), id);
      OthersStayQueued(s, gone, id);
    }
  }

  lemma OthersStayQueued(s: State, gone: nat, id: nat)
    requires Sound(s) && id != gone
    ensures var t := CloseChannel(s, gone);
      Queued(Remaining(t), id) == Queued(Remaining(s), id) && Count(t.bulk, id) <= Count(s.bulk, id)
  {
    var t := CloseChannel(s, gone);
    if gone in s.channels && s.bulk != [] {
      QueuedWithout(s.bulk[1..], {gone}, id);
      CountWithout(s.bulk[1..], {gone}, id);
      assert t.bulk[1..] == Without(s.bulk[1..], {gone});
      if s.flight.Some? && !s.flight.value.last {
        assert Remaining(s)[1..] == s.bulk[1..] && Remaining(t)[1..] == t.bulk[1..];
      }
    }
  }

  lemma TellKeeps(s: State, m: DownMsg, id: nat, h: seq<byte>)
    requires Sound(s) && PieceFor(m, id) == [] && m != Closed(id)
    ensures Kept(s, Tell(s, m), id, h)
  {
    ArrivingSnoc(s.wire, m, id);
  }
}
