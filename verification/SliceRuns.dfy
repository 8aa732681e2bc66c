/** Every event keeps the stream safe; hence every run does. */
module SliceRuns {
  import opened Bytes
  import opened SliceWire
  import opened SessionSteps
  import opened Browser
  import opened SliceProtocol
  import opened SliceSafety

  lemma {:induction false} CountIn(bulk: seq<Upload>, u: Upload)
    requires u in bulk
    ensures Count(bulk, u.id) > 0
  {
    if bulk[0] != u { CountIn(bulk[1..], u); }
  }

  lemma QueuedIds(s: System)
    requires Safe(s)
    ensures forall u :: u in s.server.bulk ==> u.id < TWO_32
  {
    forall u | u in s.server.bulk ensures u.id < TWO_32 {
      CountIn(s.server.bulk, u);
      assert ChannelSafe(s, u.id);
    }
  }

  /* ---- The credit books ---- */

  lemma {:induction false} PieceBytesSnoc(wire: seq<DownMsg>, m: DownMsg)
    ensures PieceBytes(wire + [m]) == PieceBytes(wire) + PieceBytes([m])
  {
    if wire == [] {
      assert [] + [m] == [m];
    } else {
      assert (wire + [m])[1..] == wire[1..] + [m];
      PieceBytesSnoc(wire[1..], m);
    }
  }

  lemma {:induction false} CreditBytesSnoc(up: seq<UpMsg>, m: UpMsg)
    ensures CreditBytes(up + [m]) == CreditBytes(up) + CreditBytes([m])
  {
    if up == [] {
      assert [] + [m] == [m];
    } else {
      assert (up + [m])[1..] == up[1..] + [m];
      CreditBytesSnoc(up[1..], m);
    }
  }

  /** The pump books exactly the bytes it sends, and never leaves a queue waiting for nothing. */
  lemma PumpBooks(s: State, now: int)
    requires Sound(s)
    ensures var t := Pump(s, now);
      && Total(t.unconfirmed) - PieceBytes(t.wire) == Total(s.unconfirmed) - PieceBytes(s.wire)
      && NotStuck(t)
  {
    if Sends(s) {
      var size := SLICE_HEADER_BYTES + |NextPiece(s).bytes|;
      PumpedBooks(s, now);
      NextFrameBytes(s);
      hide Pump, PieceBytes, Total, Sends;
      PieceBytesSnoc(s.wire, NextFrame(s));
      TotalSnoc(s.unconfirmed, Unconfirmed(size, now));
    }
  }

  lemma PumpedBooks(s: State, now: int)
    requires Sound(s) && Sends(s)
    ensures var t := Pump(s, now);
      && t.wire == s.wire + [NextFrame(s)]
      && t.unconfirmed == s.unconfirmed + [Unconfirmed(SLICE_HEADER_BYTES + |NextPiece(s).bytes|, now)]
      && NotStuck(t)
  {
    PumpedFrame(s, now, 0);
    DecodeSlice(s.bulk[0].id, NextPiece(s).bytes, NextPiece(s).final);
  }

  lemma NextFrameBytes(s: State)
    requires Sound(s) && Sends(s)
    ensures PieceBytes([NextFrame(s)]) == SLICE_HEADER_BYTES + |NextPiece(s).bytes|
  {
    DecodeSlice(s.bulk[0].id, NextPiece(s).bytes, NextPiece(s).final);
  }

  lemma TellBooks(s: State, id: nat)
    requires Sound(s)
    ensures PieceBytes(Tell(s, Closed(id)).wire) == PieceBytes(s.wire)
  {
    PieceBytesSnoc(s.wire, Closed(id));
  }

  lemma TookBooks(s: State, n: nat, now: int)
    requires Sound(s) && n <= Total(s.unconfirmed) && NotStuck(s)
    ensures var t := Took(s, n, now);
      && Total(t.unconfirmed) - PieceBytes(t.wire) == Total(s.unconfirmed) - n - PieceBytes(s.wire)
      && NotStuck(t)
  {
    if n > 0 {
      var r := Settle(s.unconfirmed, n, s.window, now);
      SettleTotal(s.unconfirmed, n, s.window, now);
      PumpBooks(s.(credited := true, unconfirmed := r.0, window := r.1), now);
    }
  }

  /* ---- Sending ---- */

  function SentWhole(s: System, id: nat, payload: seq<byte>): System {
    s.(server := s.server.(wire := s.server.wire + [Binary(FrameOf(id, payload))]),
       given := s.given[id := Log(s.given, id) + [payload]])
  }

  lemma SentWholeArriving(s: System, id: nat, payload: seq<byte>, c: nat)
    requires Sound(s.server) && id < TWO_32
    ensures var t := SentWhole(s, id, payload);
      && Sound(t.server)
      && (Closed(c) in t.server.wire <==> Closed(c) in s.server.wire)
      && Arriving(t.server.wire, c) ==
         (if c != id || Closed(c) in s.server.wire then Arriving(s.server.wire, c)
          else Arriving(s.server.wire, c) + [Piece(payload, true)])
      && PieceBytes(t.server.wire) == PieceBytes(s.server.wire)
  {
    hide FrameOf, DecodeBinaryFrame, PutU32, GetU32, Log, Arriving;
    var m := Binary(FrameOf(id, payload));
    DecodeFrame(id, payload);
    ArrivingSnoc(s.server.wire, m, c);
    PieceBytesSnoc(s.server.wire, m);
  }

  /** What is sent whole comes out at the far end after all that is on its way. */
  lemma SentWholeEmits(s: System, id: nat, payload: seq<byte>)
    requires Sound(s.server) && Complete(s, id) && id < TWO_32 && Count(s.server.bulk, id) == 0
    requires Arriving(SentWhole(s, id, payload).server.wire, id) == Arriving(s.server.wire, id) + [Piece(payload, true)]
    ensures Complete(SentWhole(s, id, payload), id)
  {
    hide FrameOf, PieceFor, DecodeBinaryFrame;
    var t := SentWhole(s, id, payload);
    var h, a := HeldFor(s.page.held, id), Arriving(s.server.wire, id);
    QueuedNone(Remaining(s.server), id);
    assert Coming(s.server, id) == a;
    assert Coming(t.server, id) == a + [Piece(payload, true)];
    EmittedSplit(h, a, [Piece(payload, true)]);
    EmitsOne(payload);
  }

  /** A payload that goes out whole reaches the reader after everything before it. */
  lemma SendsWhole(s: System, id: nat, payload: seq<byte>, c: nat)
    requires Safe(s) && id in s.seen && Healthy(s.server) && Count(s.server.bulk, id) == 0
    ensures ChannelSafe(SentWhole(s, id, payload), c)
  {
    hide Emitted, Residue, Arriving, Queued, FrameOf, PieceFor, DecodeBinaryFrame;
    var t := SentWhole(s, id, payload);
    assert ChannelSafe(s, c) && ChannelSafe(s, id);
    SentWholeArriving(s, id, payload, c);
    assert Remaining(t.server) == Remaining(s.server);
    if c in s.page.channels && c in s.server.channels {
      if c == id { SentWholeEmits(s, id, payload); }
      assert Complete(t, c);
      CompleteInOrder(t, c);
    }
  }

  /** The state once a payload has joined the queue and before the pump looks at it. */
  function Enqueued(s: System, id: nat, payload: seq<byte>): System {
    s.(server := s.server.(bulk := s.server.bulk + [UploadFields(s.server.nextKey, id, payload, 0)],
                           nextKey := s.server.nextKey + 1),
       given := s.given[id := Log(s.given, id) + [payload]])
  }

  lemma EnqueuedComing(s: System, id: nat, payload: seq<byte>, c: nat)
    requires Sound(s.server)
    ensures var t := Enqueued(s, id, payload);
      && Sound(t.server)
      && Count(t.server.bulk, c) == Count(s.server.bulk, c) + (if c == id then 1 else 0)
      && Coming(t.server, c) == Coming(s.server, c) + (if c == id then [Piece(payload, true)] else [])
  {
    var u: Upload := UploadFields(s.server.nextKey, id, payload, 0);
    JustQueued(u, c);
    EnqueuedLast(s, id, payload);
    hide Sound, Remaining, Count, Queued, Arriving;
    CountSplit(s.server.bulk, [u], c);
    QueuedSplit(Remaining(s.server), [u], c);
    var a, q := Arriving(s.server.wire, c), Queued(Remaining(s.server), c);
    var more := if c == id then [Piece(payload, true)] else [];
    assert a + (q + more) == (a + q) + more;
  }

  lemma EnqueuedLast(s: System, id: nat, payload: seq<byte>)
    requires Sound(s.server)
    ensures var t := Enqueued(s, id, payload).server;
      Sound(t) && Remaining(t) == Remaining(s.server) + [UploadFields(s.server.nextKey, id, payload, 0)]
  {
  }

  lemma JustQueued(u: Upload, c: nat)
    ensures Count([u], c) == if c == u.id then 1 else 0
    ensures Queued([u], c) == if c == u.id then [Piece(u.payload[u.at..], true)] else []
  {
    assert [u][1..] == [];
  }

  /** One that is queued will reach it after everything before it. */
  lemma SendsQueued(s: System, id: nat, payload: seq<byte>, c: nat)
    requires Safe(s) && id in s.seen && Healthy(s.server)
    ensures Sound(Enqueued(s, id, payload).server) && ChannelSafe(Enqueued(s, id, payload), c)
  {
    var t := Enqueued(s, id, payload);
    assert ChannelSafe(s, c) && ChannelSafe(s, id);
    EnqueuedComing(s, id, payload, c);
    EnqueuedWire(s, id, payload);
    if c in s.page.channels && c in s.server.channels { EnqueuedEmits(s, id, payload, c); }
    hide Emitted, Residue, Arriving, Queued, Coming, Complete, Remaining, Count, Enqueued;
  }

  lemma EnqueuedEmits(s: System, id: nat, payload: seq<byte>, c: nat)
    requires Sound(s.server) && Sound(Enqueued(s, id, payload).server) && Complete(s, c)
    ensures Complete(Enqueued(s, id, payload), c) && InOrder(Enqueued(s, id, payload), c)
  {
    var t := Enqueued(s, id, payload);
    EnqueuedComing(s, id, payload, c);
    EnqueuedWire(s, id, payload);
    hide Emitted, Residue, Arriving, Queued, Coming, Remaining, Count, Enqueued, Sound;
    var h, before := HeldFor(s.page.held, c), Coming(s.server, c);
    if c == id {
      EmittedSplit(h, before, [Piece(payload, true)]);
      EmitsOne(payload);
      Regroup(Log(s.page.delivered, c), Emitted(h, before), [payload]);
    } else {
      assert before + [] == before;
    }
    CompleteInOrder(t, c);
  }

  lemma EnqueuedWire(s: System, id: nat, payload: seq<byte>)
    ensures var t := Enqueued(s, id, payload);
      && t.server.wire == s.server.wire && t.server.channels == s.server.channels && t.page == s.page
      && forall c :: Log(t.given, c) == Log(s.given, c) + (if c == id then [payload] else [])
  {
  }

  lemma EmitsOne(payload: seq<byte>)
    ensures Emitted([], [Piece(payload, true)]) == [payload]
    ensures Residue([], [Piece(payload, true)]) == []
  {
    assert [] + payload == payload;
    assert [Piece(payload, true)][1..] == [];
  }

  lemma SendSafe(s: System, id: nat, payload: seq<byte>, now: int)
    requires Safe(s) && id in s.seen
    ensures Safe(Step(s, ServiceSends(id, payload, now)))
  {
    hide ChannelSafe, Pump, FrameOf, Count, Emitted, Residue, Arriving, Queued, PieceBytes, CreditBytes, Total;
    if !Healthy(s.server) {
      SendsNothing(s, id, payload, now);
    } else if |payload| <= SLICE_BYTES && Count(s.server.bulk, id) == 0 {
      SendWholeSafe(s, id, payload);
      assert Step(s, ServiceSends(id, payload, now)) == SentWhole(s, id, payload);
    } else {
      SendQueuedSafe(s, id, payload, now);
    }
  }

  lemma SendsNothing(s: System, id: nat, payload: seq<byte>, now: int)
    requires Safe(s) && id in s.seen && !Healthy(s.server)
    ensures Safe(Step(s, ServiceSends(id, payload, now)))
  {
    var t := Step(s, ServiceSends(id, payload, now));
    forall c ensures ChannelSafe(t, c) { assert ChannelSafe(s, c); }
  }

  lemma SendWholeSafe(s: System, id: nat, payload: seq<byte>)
    requires Safe(s) && id in s.seen && Healthy(s.server) && Count(s.server.bulk, id) == 0
    ensures Safe(SentWhole(s, id, payload))
  {
    hide FrameOf, Count, Arriving, PieceBytes, DecodeBinaryFrame;
    SentWholeArriving(s, id, payload, id);
    hide ChannelSafe;
    forall c ensures ChannelSafe(SentWhole(s, id, payload), c) { SendsWhole(s, id, payload, c); }
  }

  lemma SendQueuedSafe(s: System, id: nat, payload: seq<byte>, now: int)
    requires Safe(s) && id in s.seen && Healthy(s.server)
    ensures var m := Enqueued(s, id, payload);
      Sound(m.server) && Safe(m.(server := Pump(m.server, now)))
  {
    var m := Enqueued(s, id, payload);
    QueuedIds(s);
    EnqueuedComing(s, id, payload, id);
    var t := m.(server := Pump(m.server, now));
    PumpBooks(m.server, now);
    forall c ensures ChannelSafe(t, c) {
      SendsQueued(s, id, payload, c);
      PumpKeeps(m.server, now, c, HeldFor(s.page.held, c));
      ChannelKept(m, t, c);
    }
  }

  /* ---- The other events at the server ---- */

  lemma WrittenSafe(s: System, now: int)
    requires Safe(s) && s.server.flight.Some?
    ensures Safe(Step(s, PieceWritten(now)))
  {
    QueuedIds(s);
    var t := Step(s, PieceWritten(now));
    PumpBooks(s.server.(flight := None, bulk := Advanced(s.server, s.server.flight.value)), now);
    forall c ensures ChannelSafe(t, c) {
      assert ChannelSafe(s, c);
      TakenKeeps(s.server, now, c, HeldFor(s.page.held, c));
      ChannelKept(s, t, c);
    }
  }

  /** The server stops being able to send. */
  lemma EndSafe(s: System, t: System)
    requires Safe(s)
    requires t == s.(server := t.server) && Sound(t.server) && !Healthy(t.server)
    requires t.server.wire == s.server.wire && t.server.unconfirmed == s.server.unconfirmed
    requires t.server.channels <= s.server.channels
    requires forall c :: Count(s.server.bulk, c) == 0 ==> Count(t.server.bulk, c) == 0
    ensures Safe(t)
  {
    forall c ensures ChannelSafe(t, c) { assert ChannelSafe(s, c); }
  }

  lemma DisposeSafe(s: System)
    requires Safe(s)
    ensures Safe(Step(s, SocketClosed))
  {
    if !s.server.closed {
      forall c ensures Count(Purge(s.server.bulk, s.server.channels), c) <= Count(s.server.bulk, c) {
        if s.server.bulk != [] {
          CountWithout(s.server.bulk[1..], s.server.channels, c);
          assert Purge(s.server.bulk, s.server.channels)[1..] == Without(s.server.bulk[1..], s.server.channels);
        }
      }
      EndSafe(s, Step(s, SocketClosed));
    }
  }

  lemma CloseSafe(s: System, id: nat)
    requires Safe(s)
    ensures Safe(s.(server := CloseChannel(s.server, id)))
  {
    var t := s.(server := CloseChannel(s.server, id));
    TellBooks(s.server.(channels := s.server.channels - {id}, bulk := Purge(s.server.bulk, {id})), id);
    forall c ensures ChannelSafe(t, c) {
      assert ChannelSafe(s, c);
      if c != id {
        CloseKeepsOthers(s.server, id, c, HeldFor(s.page.held, c));
        ChannelKept(s, t, c);
      } else if id in s.server.channels {
        ArrivingSnoc(s.server.wire, Closed(id), id);
      }
    }
  }

  lemma RefuseSafe(s: System, id: nat)
    requires Safe(s) && id in s.seen
    ensures Safe(s.(server := OpenFails(s.server, id)))
  {
    var t := s.(server := OpenFails(s.server, id));
    var m := s.server.(channels := s.server.channels - {id});
    TellBooks(m, id);
    forall c ensures ChannelSafe(t, c) {
      assert ChannelSafe(s, c);
      if c != id {
        var h := HeldFor(s.page.held, c);
        assert Remaining(m) == Remaining(s.server);
        TellKeeps(m, Closed(id), c, h);
        KeptTrans(s.server, m, t.server, c, h);
        ChannelKept(s, t, c);
      } else {
        ArrivingSnoc(s.server.wire, Closed(id), id);
      }
    }
  }

  /** An `open` message has been read, its opener called or refused. */
  lemma OpenSafe(s: System, id: nat, known: bool)
    requires Safe(s) && id !in s.seen && id < s.page.nextId
    requires forall i :: 0 <= i < |s.page.up| && s.page.up[i].Open? ==> s.page.up[i].id != id
    ensures Safe(s.(server := OpenArrives(s.server, id, known), seen := s.seen + {id}))
  {
    var t := s.(server := OpenArrives(s.server, id, known), seen := s.seen + {id});
    assert ChannelSafe(s, id);
    TellBooks(s.server, id);
    forall c ensures ChannelSafe(t, c) {
      assert ChannelSafe(s, c);
      if c != id { OpenOthers(s, id, known, c); } else { OpenOwn(s, id, known); }
    }
  }

  lemma OpenOthers(s: System, id: nat, known: bool, c: nat)
    requires Sound(s.server) && ChannelSafe(s, c) && c != id && id !in s.seen
    ensures ChannelSafe(s.(server := OpenArrives(s.server, id, known), seen := s.seen + {id}), c)
  {
    var t := s.(server := OpenArrives(s.server, id, known));
    var h := HeldFor(s.page.held, c);
    assert known ==> Remaining(t.server) == Remaining(s.server);
    TellKeeps(s.server, Closed(id), c, h);
    assert Kept(s.server, t.server, c, h);
    ChannelKept(s, t, c);
  }

  lemma OpenOwn(s: System, id: nat, known: bool)
    requires Sound(s.server) && ChannelSafe(s, id) && id !in s.seen && id < s.page.nextId <= TWO_32
    ensures ChannelSafe(s.(server := OpenArrives(s.server, id, known), seen := s.seen + {id}), id)
  {
    QueuedNone(s.server.bulk, id);
    ArrivingSnoc(s.server.wire, Closed(id), id);
    QueuedNone(Remaining(s.server), id);
  }

  lemma CreditSafe(s: System, n: nat, now: int)
    requires Sound(s.server) && IdsFresh(s) && NotStuck(s.server)
    requires forall c :: ChannelSafe(s, c)
    requires Total(s.server.unconfirmed) == PieceBytes(s.server.wire) + CreditBytes(s.page.up) + n
    requires s.server.bulk != [] ==> s.server.bulk[0].id < TWO_32
    ensures Safe(s.(server := Took(s.server, n, now)))
  {
    var t := s.(server := Took(s.server, n, now));
    TookBooks(s.server, n, now);
    forall c ensures ChannelSafe(t, c) {
      TookKeeps(s.server, n, now, c, HeldFor(s.page.held, c));
      ChannelKept(s, t, c);
    }
  }

  lemma ServerReadsSafe(s: System, known: bool, now: int)
    requires Safe(s) && s.page.up != []
    ensures Safe(Step(s, ServerReads(known, now)))
  {
    var m := s.(page := s.page.(up := s.page.up[1..]));
    assert s.page.up == [s.page.up[0]] + m.page.up;
    assert forall i :: 0 <= i < |m.page.up| ==> m.page.up[i] == s.page.up[i + 1];
    forall c ensures ChannelSafe(m, c) { assert ChannelSafe(s, c); }
    hide ChannelSafe;
    match s.page.up[0] {
      case Open(id) => OpenSafe(m, id, known);
      case Close(id) => CloseSafe(m, id);
      case TookBytes(n) =>
        QueuedIds(s);
        CreditSafe(m, n, now);
    }
  }

  /* ---- Events at the page ---- */

  /** A piece read at the page: it joins what is held, or completes a payload. */
  lemma ReadsPiece(held: map<nat, seq<byte>>, f: BinaryFrame, d: seq<seq<byte>>, rest: seq<Piece>)
    ensures var (held', whole) := Assemble(held, f);
      var h, h2 := HeldFor(held, f.channelId), HeldFor(held', f.channelId);
      var d2 := d + (if whole.Some? then [whole.value] else []);
      var ps := [Piece(f.payload, !f.partial)] + rest;
      && d + Emitted(h, ps) == d2 + Emitted(h2, rest)
      && Residue(h, ps) == Residue(h2, rest)
  {
    var ps := [Piece(f.payload, !f.partial)] + rest;
    assert ps[1..] == rest;
    var (held', whole) := Assemble(held, f);
    var h2 := HeldFor(held', f.channelId);
    if whole.Some? {
      assert d + ([whole.value] + Emitted(h2, rest)) == (d + [whole.value]) + Emitted(h2, rest);
    } else {
      assert d + [] == d;
    }
  }

  /** A message of another channel leaves this one's reader alone. */
  lemma PageReadsOther(p: Page, m: DownMsg, c: nat)
    requires PieceFor(m, c) == []
    ensures var q := Receive(p, m);
      && Log(q.delivered, c) == Log(p.delivered, c)
      && (c in q.channels <==> c in p.channels && m != Closed(c))
      && (m != Closed(c) ==> HeldFor(q.held, c) == HeldFor(p.held, c))
  {
  }

  lemma PageReadsChannel(s: System, c: nat)
    requires Safe(s) && s.server.wire != [] && s.page.open
    ensures ChannelSafe(Step(s, PageReads), c)
  {
    if PieceFor(s.server.wire[0], c) == [] {
      PageReadsAround(s, c);
    } else {
      PageReadsPiece(s, c);
    }
  }

  lemma PageReadsAround(s: System, c: nat)
    requires Safe(s) && s.server.wire != [] && s.page.open && PieceFor(s.server.wire[0], c) == []
    ensures ChannelSafe(Step(s, PageReads), c)
  {
    var m := s.server.wire[0];
    var t := Step(s, PageReads);
    assert ChannelSafe(s, c);
    assert Remaining(t.server) == Remaining(s.server);
    PageReadsOther(s.page, m, c);
    if m != Closed(c) {
      assert Arriving(s.server.wire, c) == Arriving(t.server.wire, c);
      assert Coming(s.server, c) == Coming(t.server, c);
    } else {
      assert c in s.seen;
    }
  }

  lemma ReceivesPiece(p: Page, m: DownMsg, c: nat)
    requires PieceFor(m, c) != []
    ensures var f := DecodeBinaryFrame(m.bytes).value;
      var q := Receive(p, m);
      var (held, whole) := Assemble(p.held, f);
      && PieceFor(m, c) == [Piece(f.payload, !f.partial)]
      && q.channels == p.channels && q.held == held
      && (c in p.channels ==>
            Log(q.delivered, c) == Log(p.delivered, c) + (if whole.Some? then [whole.value] else []))
  {
  }

  lemma PageReadsPiece(s: System, c: nat)
    requires Safe(s) && s.server.wire != [] && s.page.open && PieceFor(s.server.wire[0], c) != []
    ensures ChannelSafe(Step(s, PageReads), c)
  {
    ReceivesPiece(s.page, s.server.wire[0], c);
    PieceLands(s, Step(s, PageReads), c, DecodeBinaryFrame(s.server.wire[0].bytes).value);
  }

  lemma PieceLands(s: System, t: System, c: nat, f: BinaryFrame)
    requires Sound(s.server) && ChannelSafe(s, c)
    requires s.server.wire != [] && s.server.wire[0] != Closed(c)
    requires f.channelId == c && PieceFor(s.server.wire[0], c) == [Piece(f.payload, !f.partial)]
    requires t.server == s.server.(wire := s.server.wire[1..]) && t.given == s.given && t.seen == s.seen
    requires var (held, whole) := Assemble(s.page.held, f);
      && t.page.channels == s.page.channels && t.page.held == held
      && (c in s.page.channels ==>
            Log(t.page.delivered, c) == Log(s.page.delivered, c) + (if whole.Some? then [whole.value] else []))
    ensures ChannelSafe(t, c)
  {
    var rest := Arriving(t.server.wire, c);
    assert Arriving(s.server.wire, c) == [Piece(f.payload, !f.partial)] + rest;
    assert c in s.seen;
    hide Arriving, Queued, Emitted, Residue, PieceFor, Log;
    if c in s.page.channels {
      ReadsPiece(s.page.held, f, Log(s.page.delivered, c), rest);
      assert InOrder(t, c);
      if Healthy(s.server) && c in s.server.channels { PieceCompletes(s, t, c, f); }
    }
  }

  /** What is still to come for a reader is what was, but for the piece it has now. */
  lemma PieceCompletes(s: System, t: System, c: nat, f: BinaryFrame)
    requires Sound(s.server) && Complete(s, c) && s.server.wire != []
    requires t.server == s.server.(wire := s.server.wire[1..]) && t.given == s.given
    requires f.channelId == c
    requires Arriving(s.server.wire, c) == [Piece(f.payload, !f.partial)] + Arriving(t.server.wire, c)
    requires var (held, whole) := Assemble(s.page.held, f);
      && t.page.held == held
      && Log(t.page.delivered, c) == Log(s.page.delivered, c) + (if whole.Some? then [whole.value] else [])
    ensures Complete(t, c)
  {
    hide Arriving, Queued, Emitted, Residue, PieceFor, Log;
    var rest, q := Arriving(t.server.wire, c), Queued(Remaining(s.server), c);
    assert Remaining(t.server) == Remaining(s.server);
    assert Coming(s.server, c) == [Piece(f.payload, !f.partial)] + (rest + q);
    ReadsPiece(s.page.held, f, Log(s.page.delivered, c), rest + q);
    assert s.server.wire == [s.server.wire[0]] + t.server.wire;
  }

  /** A page that reads a message confirms exactly what the message counts for. */
  lemma ReceiveConfirms(p: Page, m: DownMsg)
    requires p.open
    ensures var q := Receive(p, m);
      && q.nextId == p.nextId && q.channels <= p.channels
      && q.up == if CreditOf(m) == 0 then p.up else p.up + [TookBytes(CreditOf(m))]
  {
  }

  lemma PageReadsBooks(s: System)
    requires Sound(s.server) && s.server.wire != [] && s.page.open && CreditConserved(s) && IdsFresh(s)
    ensures CreditConserved(Step(s, PageReads)) && IdsFresh(Step(s, PageReads))
  {
    var c := CreditOf(s.server.wire[0]);
    ReceiveConfirms(s.page, s.server.wire[0]);
    CreditBytesSnoc(s.page.up, TookBytes(c));
  }

  lemma PageReadsSafe(s: System)
    requires Safe(s) && s.server.wire != [] && s.page.open
    ensures Safe(Step(s, PageReads))
  {
    PageReadsBooks(s);
    forall c ensures ChannelSafe(Step(s, PageReads), c) { PageReadsChannel(s, c); }
  }

  lemma PageOpensSafe(s: System)
    requires Safe(s) && s.page.nextId < TWO_32
    ensures Safe(Step(s, PageOpens))
  {
    var t := Step(s, PageOpens);
    CreditBytesSnoc(s.page.up, Open(s.page.nextId));
    forall c ensures ChannelSafe(t, c) { assert ChannelSafe(s, c); }
  }

  lemma PageClosesSafe(s: System, id: nat)
    requires Safe(s)
    ensures Safe(Step(s, PageCloses(id)))
  {
    var t := Step(s, PageCloses(id));
    CreditBytesSnoc(s.page.up, Close(id));
    forall c ensures ChannelSafe(t, c) { PageCloseKeeps(s, id, c); }
  }

  lemma PageCloseKeeps(s: System, id: nat, c: nat)
    requires Safe(s)
    ensures ChannelSafe(Step(s, PageCloses(id)), c)
  {
    assert ChannelSafe(s, c);
  }

  lemma PageDropsSafe(s: System)
    requires Safe(s)
    ensures Safe(Step(s, PageDrops))
  {
    forall c ensures ChannelSafe(Step(s, PageDrops), c) { assert ChannelSafe(s, c); }
  }

  /** No event, at either end, breaks the stream. */
  lemma StepSafe(s: System, e: Event)
    requires Safe(s) && Enabled(s, e)
    ensures Safe(Step(s, e))
  {
    match e {
      case ServiceSends(id, payload, now) => SendSafe(s, id, payload, now);
      case PieceWritten(now) => WrittenSafe(s, now);
      case PieceFailed => EndSafe(s, Step(s, e));
      case ServiceCloses(id) => CloseSafe(s, id);
      case OpenerRejects(id) => RefuseSafe(s, id);
      case SocketLost => EndSafe(s, Step(s, e));
      case SocketClosed => DisposeSafe(s);
      case ServerReads(known, now) => ServerReadsSafe(s, known, now);
      case PageReads => PageReadsSafe(s);
      case PageOpens => PageOpensSafe(s);
      case PageCalls =>
        forall c ensures ChannelSafe(Step(s, e), c) { assert ChannelSafe(s, c); }
      case PageCloses(id) => PageClosesSafe(s, id);
      case PageDrops => PageDropsSafe(s);
    }
  }
}
