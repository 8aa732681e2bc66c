/**
 The binary stream in bytes and numbers, as shared/protocol.ts has the frames
 and server/src/session.ts and client/src/core/rpc.ts the steps of either end.
 */
module SliceExact {
  import opened Bytes
  import opened SliceWire
  import opened SessionSteps
  import opened Browser
  import opened SliceProtocol

  /* ---- Frames ---- */

  /** Four bytes, the first counting most. */
  function Number(b: seq<byte>): int
    requires |b| == 4
  {
    b[0] as int * 0x100_0000 + b[1] as int * 0x1_0000 + b[2] as int * 0x100 + b[3] as int
  }

  lemma NumberIs(b: seq<byte>)
    requires |b| >= 4
    ensures Number(b[..4]) == GetU32(b)
  {
  }

  /** A payload in one frame: a one, the channel, the bytes. */
  predicate IsWhole(b: seq<byte>, id: nat, payload: seq<byte>) {
    |b| == 5 + |payload| && b[0] == 1 && Number(b[1..5]) == id % 0x1_0000_0000 && b[5..] == payload
  }

  /** A piece of one: a two, the channel, a one if it is the last and else a zero, the bytes. */
  predicate IsSlice(b: seq<byte>, id: nat, piece: seq<byte>, last: bool) {
    && |b| == 6 + |piece| && b[0] == 2 && Number(b[1..5]) == id % 0x1_0000_0000
    && b[5] == (if last then 1 else 0) && b[6..] == piece
  }

  lemma PutExactly(v: int)
    ensures Number(PutU32(v)) == v % 0x1_0000_0000
  {
    GetPutU32(v, []);
    assert PutU32(v) + [] == PutU32(v) && PutU32(v)[..4] == PutU32(v);
    NumberIs(PutU32(v));
  }

  lemma WholeExactly(id: nat, payload: seq<byte>)
    ensures IsWhole(FrameOf(id, payload), id, payload)
  {
    PutExactly(id);
    hide PutU32, Number;
    assert FrameOf(id, payload)[1..5] == PutU32(id);
  }

  lemma SliceExactly(id: nat, piece: seq<byte>, last: bool)
    ensures IsSlice(SliceOf(id, piece, last), id, piece, last)
  {
    PutExactly(id);
    hide PutU32, Number;
    assert SliceOf(id, piece, last)[1..5] == PutU32(id);
  }

  /** What is not one of the two is no frame; any mark but a zero is the last piece's. */
  lemma DecodeExactly(b: seq<byte>)
    ensures DecodeBinaryFrame(b) ==
      if |b| >= 5 && b[0] == 1 then Some(BinaryFrame(Number(b[1..5]), b[5..], false, false))
      else if |b| >= 6 && b[0] == 2 then Some(BinaryFrame(Number(b[1..5]), b[6..], b[5] == 0, true))
      else None
  {
    if |b| >= 5 {
      assert b[1..][..4] == b[1..5];
      NumberIs(b[1..]);
    }
  }

  /* ---- The server's steps ---- */

  lemma StartExactly()
    ensures !Fresh.closed && Fresh.wsOpen && Fresh.channels == {} && Fresh.bulk == [] && Fresh.flight == None
    ensures Fresh.unconfirmed == [] && Fresh.window == 65536 && !Fresh.credited && Fresh.wire == []
    ensures Blank.open && Blank.nextId == 1 && Blank.channels == {} && Blank.held == map[] && Blank.up == []
  {
  }

  /** `t` is `s` with one piece more under way: 16 KiB of the first payload, or what is left of it. */
  ghost predicate Writes(s: State, t: State, now: int)
    requires s.bulk != []
  {
    var u := s.bulk[0];
    var n := Min(16384, |u.payload| - u.at);
    && |t.wire| == |s.wire| + 1 && t.wire[|s.wire|].Binary?
    && IsSlice(t.wire[|s.wire|].bytes, u.id, u.payload[u.at..u.at + n], u.at + n == |u.payload|)
    && t == s.(wire := s.wire + [t.wire[|s.wire|]],
               flight := Some(Flight(u.key, u.at + n, u.at + n == |u.payload|)),
               unconfirmed := s.unconfirmed + [Unconfirmed(6 + n, now)])
  }

  /**
   The pump writes when nothing else is being written and the credit is not
   used up, which it cannot be before the page has confirmed anything; on a
   connection that is gone it drops the queue.
   */
  lemma PumpExactly(s: State, now: int)
    requires Sound(s)
    ensures var t := Pump(s, now);
      if s.flight.Some? || s.bulk == [] then t == s
      else if s.closed || !s.wsOpen then t == s.(bulk := [])
      else if s.credited && Total(s.unconfirmed) >= s.window then t == s
      else Writes(s, t, now)
  {
    if s.bulk != [] {
      var u := s.bulk[0];
      var n := Min(16384, |u.payload| - u.at);
      SliceExactly(u.id, u.payload[u.at..u.at + n], u.at + n == |u.payload|);
      DecodeSlice(u.id, u.payload[u.at..u.at + n], u.at + n == |u.payload|);
      hide SliceOf, IsSlice, Total;
    }
  }

  /** A payload of up to 16 KiB goes out at once unless its channel has others queued; any other waits behind all. */
  lemma SendExactly(s: State, id: nat, payload: seq<byte>, now: int)
    requires Sound(s)
    ensures var t := SendBinary(s, id, payload, now);
      if s.closed || !s.wsOpen then t == s
      else if |payload| <= 16384 && (forall i :: 0 <= i < |s.bulk| ==> s.bulk[i].id != id) then
        && |t.wire| == |s.wire| + 1 && t.wire[|s.wire|].Binary?
        && IsWhole(t.wire[|s.wire|].bytes, id, payload) && t == s.(wire := s.wire + [t.wire[|s.wire|]])
      else
        t == Pump(s.(bulk := s.bulk + [UploadFields(s.nextKey, id, payload, 0)], nextKey := s.nextKey + 1), now)
  {
    WholeExactly(id, payload);
    CountExactly(s.bulk, id);
    hide FrameOf, IsWhole, Pump, Count;
  }

  lemma {:induction false} CountExactly(bulk: seq<Upload>, id: nat)
    ensures Count(bulk, id) == 0 <==> forall i :: 0 <= i < |bulk| ==> bulk[i].id != id
  {
    if bulk != [] {
      CountExactly(bulk[1..], id);
      assert forall i :: 0 <= i < |bulk[1..]| ==> bulk[1..][i] == bulk[i + 1];
    }
  }

  /** The piece is through: its payload stands behind it, or leaves if that was all or its channel has gone. */
  lemma TakenExactly(s: State, now: int)
    requires Sound(s) && s.flight.Some?
    ensures var u := s.bulk[0];
      var n := Min(16384, |u.payload| - u.at);
      var head := if u.at + n == |u.payload| || u.id !in s.channels then [] else [u.(at := u.at + n)];
      SendTaken(s, now) == Pump(s.(flight := None, bulk := head + s.bulk[1..]), now)
    ensures SendFailed(s) == s.(flight := None)
  {
    hide Pump;
    assert [] + s.bulk[1..] == s.bulk[1..];
  }

  /** What a connection that stands says of a channel. */
  ghost predicate TellsClosed(s: State, wire: seq<DownMsg>, id: nat) {
    wire == if s.closed || !s.wsOpen then s.wire else s.wire + [Closed(id)]
  }

  /**
   A channel closed: the page is told, and behind the head nothing of it stays
   queued, and everything else does.
   */
  lemma CloseExactly(s: State, id: nat)
    requires Sound(s)
    ensures var t := CloseChannel(s, id);
      if id !in s.channels then t == s
      else
        && TellsClosed(s, t.wire, id) && t == s.(channels := s.channels - {id}, bulk := t.bulk, wire := t.wire)
        && Rid(s.bulk, t.bulk, {id})
  {
    PurgeExactly(s.bulk, {id});
    hide Purge;
  }

  /** The queue `v` is `u` without the payloads of the channels in `gone`, but for the head. */
  ghost predicate Rid(u: seq<Upload>, v: seq<Upload>, gone: set<nat>) {
    && |v| <= |u| && (u != [] ==> v != [] && v[0] == u[0])
    && (forall i :: 1 <= i < |v| ==> v[i].id !in gone)
    && (forall c :: c !in gone ==> Queued(v, c) == Queued(u, c))
  }

  lemma PurgeExactly(u: seq<Upload>, gone: set<nat>)
    ensures Rid(u, Purge(u, gone), gone)
  {
    if u != [] {
      var v := Purge(u, gone);
      WithoutExactly(u[1..], gone);
      assert v[1..] == Without(u[1..], gone);
      forall i | 1 <= i < |v| ensures v[i].id !in gone { assert v[i] == v[1..][i - 1]; }
      forall c | c !in gone ensures Queued(v, c) == Queued(u, c) { QueuedWithout(u[1..], gone, c); }
    }
  }

  lemma {:induction false} WithoutExactly(u: seq<Upload>, gone: set<nat>)
    ensures |Without(u, gone)| <= |u|
    ensures forall i :: 0 <= i < |Without(u, gone)| ==> Without(u, gone)[i].id !in gone
  {
    if u != [] { WithoutExactly(u[1..], gone); }
  }

  /** An opening: refused, and the page told, if the id is taken or nothing offers such a channel. */
  lemma OpenExactly(s: State, id: nat, known: bool)
    requires Sound(s)
    ensures var t := OpenArrives(s, id, known);
      if id in s.channels || !known then TellsClosed(s, t.wire, id) && t == s.(wire := t.wire)
      else t == s.(channels := s.channels + {id})
    ensures var t := OpenFails(s, id);
      TellsClosed(s, t.wire, id) && t == s.(channels := s.channels - {id}, wire := t.wire)
  {
  }

  /** The socket gone: no channel is left, nobody is told, and what was queued for one goes, but for the head. */
  lemma DisposeExactly(s: State)
    requires Sound(s)
    ensures var t := Dispose(s);
      if s.closed then t == s
      else t == s.(closed := true, channels := {}, bulk := t.bulk) && Rid(s.bulk, t.bulk, s.channels)
  {
    PurgeExactly(s.bulk, s.channels);
    hide Purge;
  }

  /* ---- The page's steps ---- */

  /** What an open page says goes up. */
  ghost predicate SaysUp(p: Page, up: seq<UpMsg>, m: UpMsg) {
    up == if p.open then p.up + [m] else p.up
  }

  /**
   A message from the server: a closed channel is forgotten, with what it held;
   a piece is confirmed with all its bytes, header and all, and held; a last
   piece, or a whole payload, goes to the channel with what was held before it,
   if the channel is there.
   */
  lemma ReceiveExactly(p: Page, m: DownMsg)
    ensures var q := Receive(p, m);
      match m
      case Closed(id) =>
        if id in p.channels then q == p.(channels := p.channels - {id}, held := p.held - {id}) else q == p
      case Binary(bytes) =>
        var d := DecodeBinaryFrame(bytes);
        if d.None? then q == p
        else
          var f := d.value;
          var all := (if f.channelId in p.held then p.held[f.channelId] else []) + f.payload;
          && (if f.sliced then SaysUp(p, q.up, TookBytes(|bytes|)) else q.up == p.up)
          && q.held == (if f.partial then p.held[f.channelId := all] else p.held - {f.channelId})
          && q.delivered == (if f.partial || f.channelId !in p.channels then p.delivered
                             else p.delivered[f.channelId := Log(p.delivered, f.channelId) + [all]])
          && q == p.(up := q.up, held := q.held, delivered := q.delivered)
  {
    hide DecodeBinaryFrame;
  }

  /** What the page does of itself: ids are counted up whether or not there is a socket to ask on. */
  lemma PageExactly(p: Page, id: nat)
    ensures OpenChannel(p) ==
      if p.open then p.(nextId := p.nextId + 1, channels := p.channels + {p.nextId}, up := p.up + [Open(p.nextId)])
      else p.(nextId := p.nextId + 1)
    ensures var q := CloseByUser(p, id);
      if id !in p.channels then q == p
      else SaysUp(p, q.up, Close(id)) && q == p.(up := q.up, channels := p.channels - {id}, held := p.held - {id})
    ensures Disconnect(p) == p.(open := false, channels := {}, held := map[])
  {
  }

  /** Which step a message from the page leads to, and that a page that has lost its socket has nothing left. */
  lemma StepsExactly(s: System, known: bool, now: int)
    requires Sound(s.server)
    ensures s.page.up != [] ==>
      var t := Step(s, ServerReads(known, now));
      && t.page == s.page.(up := s.page.up[1..]) && t.given == s.given
      && match s.page.up[0]
         case Open(id) => t.server == OpenArrives(s.server, id, known) && t.seen == s.seen + {id}
         case Close(id) => t.server == CloseChannel(s.server, id) && t.seen == s.seen
         case TookBytes(n) => t.server == Took(s.server, n, now) && t.seen == s.seen
    ensures Step(s, PageDrops) == s.(page := Disconnect(s.page))
  {
    hide OpenArrives, CloseChannel, Took;
  }
}
