/**
 Both ends of the binary stream and the socket between them.

 Every interleaving of sends, send callbacks, credits, opens and closes is a
 sequence of `Event`s. `Safe` holds after each of them; what a channel's reader
 is promised, and that the sender cannot get stuck, follow from it.
 */
module SliceProtocol {
  import opened Bytes
  import opened SliceWire
  import opened SessionSteps
  import opened Browser

  /** `seen` are the ids the server was asked to open, `given` what services sent on each. */
  datatype System = System(
    server: State,
    page: Page,
    seen: set<nat>,
    given: map<nat, seq<seq<byte>>>)

  const Start := System(Fresh, Blank, {}, map[])

  datatype Event =
    | ServiceSends(id: nat, payload: seq<byte>, now: int)
    | PieceWritten(now: int)
    | PieceFailed
    | ServiceCloses(id: nat)
    | OpenerRejects(id: nat)
    | SocketLost
    | SocketClosed
    | ServerReads(known: bool, now: int)
    | PageReads
    | PageOpens
    | PageCalls
    | PageCloses(id: nat)
    | PageDrops

  /**
   What can happen next. A service only holds contexts of channels it was
   asked for, ids stay within the four bytes a frame has for them, and a
   write fails only on a socket that is no longer open.
   */
  predicate Enabled(s: System, e: Event) {
    match e
    case ServiceSends(id, _, _) => id in s.seen
    case PieceWritten(_) => s.server.flight.Some?
    case PieceFailed => s.server.flight.Some? && !s.server.wsOpen
    case OpenerRejects(id) => id in s.seen
    case ServerReads(_, _) => s.page.up != []
    case PageReads => s.server.wire != [] && s.page.open
    case PageOpens => s.page.nextId < TWO_32
    case PageCalls => s.page.nextId < TWO_32
    case _ => true
  }

  function ServerReading(s: System, m: UpMsg, known: bool, now: int): System
    requires Sound(s.server)
  {
    match m
    case Open(id) => s.(server := OpenArrives(s.server, id, known), seen := s.seen + {id})
    case Close(id) => s.(server := CloseChannel(s.server, id))
    case TookBytes(n) => s.(server := Took(s.server, n, now))
  }

  function Step(s: System, e: Event): (t: System)
    requires Sound(s.server) && Enabled(s, e)
    ensures Sound(t.server)
  {
    match e
    case ServiceSends(id, payload, now) =>
      s.(server := SendBinary(s.server, id, payload, now),
         given := s.given[id := Log(s.given, id) + [payload]])
    case PieceWritten(now) => s.(server := SendTaken(s.server, now))
    case PieceFailed => s.(server := SendFailed(s.server))
    case ServiceCloses(id) => s.(server := CloseChannel(s.server, id))
    case OpenerRejects(id) => s.(server := OpenFails(s.server, id))
    case SocketLost => s.(server := s.server.(wsOpen := false))
    case SocketClosed => s.(server := Dispose(s.server))
    case ServerReads(known, now) =>
      ServerReading(s.(page := s.page.(up := s.page.up[1..])), s.page.up[0], known, now)
    case PageReads =>
      s.(server := s.server.(wire := s.server.wire[1..]), page := Receive(s.page, s.server.wire[0]))
    case PageOpens => s.(page := OpenChannel(s.page))
    case PageCalls => s.(page := s.page.(nextId := s.page.nextId + 1))
    case PageCloses(id) => s.(page := CloseByUser(s.page, id))
    case PageDrops => s.(page := Disconnect(s.page))
  }

  /* ---- What is still on its way to a channel ---- */

  datatype Piece = Piece(bytes: seq<byte>, final: bool)

  /** The payloads a reader holding `h` makes of `ps`. */
  function Emitted(h: seq<byte>, ps: seq<Piece>): seq<seq<byte>>
    decreases |ps|
  {
    if ps == [] then []
    else if ps[0].final then [h + ps[0].bytes] + Emitted([], ps[1..])
    else Emitted(h + ps[0].bytes, ps[1..])
  }

  /** The bytes of an unfinished payload it is left holding. */
  function Residue(h: seq<byte>, ps: seq<Piece>): seq<byte>
    decreases |ps|
  {
    if ps == [] then h
    else Residue(if ps[0].final then [] else h + ps[0].bytes, ps[1..])
  }

  function PieceFor(m: DownMsg, id: nat): seq<Piece> {
    match m
    case Closed(_) => []
    case Binary(bytes) =>
      match DecodeBinaryFrame(bytes)
      case None => []
      case Some(f) => if f.channelId == id then [Piece(f.payload, !f.partial)] else []
  }

  /** The pieces on the wire for a channel, up to the word that it is closed. */
  function Arriving(wire: seq<DownMsg>, id: nat): seq<Piece> {
    if wire == [] || wire[0] == Closed(id) then []
    else PieceFor(wire[0], id) + Arriving(wire[1..], id)
  }

  /** The queue as it will be when the piece being written has been taken. */
  function Remaining(s: State): seq<Upload>
    requires Sound(s)
  {
    if s.flight.None? then s.bulk
    else if s.flight.value.last then s.bulk[1..]
    else [s.bulk[0].(at := s.flight.value.end)] + s.bulk[1..]
  }

  function Queued(bulk: seq<Upload>, id: nat): seq<Piece> {
    if bulk == [] then []
    else (if bulk[0].id == id then [Piece(bulk[0].payload[bulk[0].at..], true)] else []) + Queued(bulk[1..], id)
  }

  lemma {:induction false} EmittedSplit(h: seq<byte>, a: seq<Piece>, b: seq<Piece>)
    ensures Emitted(h, a + b) == Emitted(h, a) + Emitted(Residue(h, a), b)
    ensures Residue(h, a + b) == Residue(Residue(h, a), b)
    decreases |a|
  {
    if a == [] {
      assert a + b == b;
    } else {
      assert (a + b)[1..] == a[1..] + b;
      EmittedSplit(if a[0].final then [] else h + a[0].bytes, a[1..], b);
    }
  }

  lemma {:induction false} ArrivingSnoc(wire: seq<DownMsg>, m: DownMsg, id: nat)
    ensures Arriving(wire + [m], id) ==
            if Closed(id) in wire || PieceFor(m, id) == [] then Arriving(wire, id)
            else Arriving(wire, id) + PieceFor(m, id)
  {
    if wire == [] {
      assert [m][1..] == [];
      assert PieceFor(m, id) + [] == PieceFor(m, id);
    } else if wire[0] == Closed(id) {
      assert (wire + [m])[0] == Closed(id);
    } else {
      assert (wire + [m])[1..] == wire[1..] + [m];
      ArrivingSnoc(wire[1..], m, id);
      assert Closed(id) in wire <==> Closed(id) in wire[1..];
      if Closed(id) !in wire {
        assert PieceFor(wire[0], id) + (Arriving(wire[1..], id) + PieceFor(m, id))
            == (PieceFor(wire[0], id) + Arriving(wire[1..], id)) + PieceFor(m, id);
      }
    }
  }

  lemma {:induction false} QueuedSplit(a: seq<Upload>, b: seq<Upload>, id: nat)
    ensures Queued(a + b, id) == Queued(a, id) + Queued(b, id)
  {
    if a == [] {
      assert a + b == b;
    } else {
      assert (a + b)[1..] == a[1..] + b;
      QueuedSplit(a[1..], b, id);
      var head := if a[0].id == id then [Piece(a[0].payload[a[0].at..], true)] else [];
      assert (head + Queued(a[1..], id)) + Queued(b, id) == head + (Queued(a[1..], id) + Queued(b, id));
    }
  }

  lemma {:induction false} QueuedWithout(bulk: seq<Upload>, gone: set<nat>, id: nat)
    requires id !in gone
    ensures Queued(Without(bulk, gone), id) == Queued(bulk, id)
  {
    if bulk == [] {
    } else {
      QueuedWithout(bulk[1..], gone, id);
      if bulk[0].id !in gone {
        assert ([bulk[0]] + Without(bulk[1..], gone))[1..] == Without(bulk[1..], gone);
      } else {
        assert Without(bulk, gone) == Without(bulk[1..], gone);
      }
    }
  }

  lemma {:induction false} QueuedNone(bulk: seq<Upload>, id: nat)
    requires Count(bulk, id) == 0
    ensures Queued(bulk, id) == []
  {
    if bulk != [] { QueuedNone(bulk[1..], id); }
  }

  lemma {:induction false} CountWithout(bulk: seq<Upload>, gone: set<nat>, id: nat)
    ensures Count(Without(bulk, gone), id) <= Count(bulk, id)
  {
    if bulk == [] {
    } else {
      CountWithout(bulk[1..], gone, id);
      if bulk[0].id !in gone {
        assert ([bulk[0]] + Without(bulk[1..], gone))[1..] == Without(bulk[1..], gone);
      } else {
        assert Without(bulk, gone) == Without(bulk[1..], gone);
      }
    }
  }

  /* ---- The invariant ---- */

  predicate Healthy(s: State) {
    !s.closed && s.wsOpen
  }

  /** Everything still to come for a channel that nobody has closed. */
  function Coming(s: State, id: nat): seq<Piece>
    requires Sound(s)
  {
    Arriving(s.wire, id) + Queued(Remaining(s), id)
  }

  /** No channel of this id has been asked for yet, and nothing bears its name. */
  predicate Untouched(s: System, id: nat) {
    && Log(s.given, id) == [] && Log(s.page.delivered, id) == []
    && HeldFor(s.page.held, id) == []
    && id !in s.server.channels
    && Closed(id) !in s.server.wire && Arriving(s.server.wire, id) == []
    && Count(s.server.bulk, id) == 0
  }

  /** What has been delivered and what the wire still carries are the first payloads given. */
  predicate InOrder(s: System, id: nat) {
    Log(s.page.delivered, id) + Emitted(HeldFor(s.page.held, id), Arriving(s.server.wire, id)) <= Log(s.given, id)
  }

  /** Delivered, on the wire and queued together are exactly what was given. */
  predicate Complete(s: System, id: nat)
    requires Sound(s.server)
  {
    && Closed(id) !in s.server.wire
    && Log(s.page.delivered, id) + Emitted(HeldFor(s.page.held, id), Coming(s.server, id)) == Log(s.given, id)
    && Residue(HeldFor(s.page.held, id), Coming(s.server, id)) == []
  }

  predicate ChannelSafe(s: System, id: nat)
    requires Sound(s.server)
  {
    && (id !in s.seen ==> Untouched(s, id))
    && (id in s.page.channels ==> InOrder(s, id))
    && (id in s.page.channels && Healthy(s.server) && id in s.server.channels ==> Complete(s, id))
    && (id in s.page.channels && Healthy(s.server) && id in s.seen && id !in s.server.channels
        ==> Closed(id) in s.server.wire)
  }

  /** Ids count up, and each is asked for once. */
  predicate IdsFresh(s: System) {
    && s.page.nextId <= TWO_32
    && (forall id :: id in s.seen ==> id < s.page.nextId)
    && (forall id :: id in s.page.channels ==> id < s.page.nextId)
    && (forall i :: 0 <= i < |s.page.up| && s.page.up[i].Open? ==>
          s.page.up[i].id < s.page.nextId && s.page.up[i].id !in s.seen)
    && (forall i, j :: 0 <= i < j < |s.page.up| && s.page.up[i].Open? && s.page.up[j].Open? ==>
          s.page.up[i].id != s.page.up[j].id)
  }

  /** What a message counts for in credit: a piece its whole length, everything else nothing. */
  function CreditOf(m: DownMsg): nat {
    match m
    case Closed(_) => 0
    case Binary(bytes) =>
      var f := DecodeBinaryFrame(bytes);
      if f.Some? && f.value.sliced then |bytes| else 0
  }

  /** Bytes of pieces travelling to the page. */
  function PieceBytes(wire: seq<DownMsg>): nat {
    if wire == [] then 0 else CreditOf(wire[0]) + PieceBytes(wire[1..])
  }

  /** Bytes of confirmations travelling back. */
  function CreditBytes(up: seq<UpMsg>): nat {
    if up == [] then 0 else (if up[0].TookBytes? then up[0].n else 0) + CreditBytes(up[1..])
  }

  predicate CreditConserved(s: System) {
    Total(s.server.unconfirmed) == PieceBytes(s.server.wire) + CreditBytes(s.page.up)
  }

  /** A queue that waits, waits for a callback or for credit. */
  predicate NotStuck(s: State) {
    Healthy(s) && s.bulk != [] && s.flight.None? ==> s.credited && Total(s.unconfirmed) >= s.window
  }

  ghost predicate Safe(s: System) {
    && Sound(s.server)
    && IdsFresh(s)
    && CreditConserved(s)
    && NotStuck(s.server)
    && forall id :: ChannelSafe(s, id)
  }
}
