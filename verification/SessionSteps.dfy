/**
 The binary half of a browser connection, server/src/session.ts, as a state and
 one function per event. Session.dfy has the connection as it is kept, with the
 counters and maps that make the events cheap.
 */
module SessionSteps {
  import opened Bytes
  import opened SliceWire

  /** A payload in the bulk queue. `key` stands for the identity of the queued object. */
  datatype UploadFields = UploadFields(key: nat, id: nat, payload: seq<byte>, at: nat)
  type Upload = u: UploadFields | u.at <= |u.payload| witness UploadFields(0, 0, [], 0)

  datatype Unconfirmed = Unconfirmed(bytes: nat, at: int)

  /** What the callback of the piece being written remembers. */
  datatype Flight = Flight(key: nat, end: nat, last: bool)

  /** What the socket carries to the browser: binary frames, and JSON `close` messages. */
  datatype DownMsg = Binary(bytes: seq<byte>) | Closed(id: nat)

  datatype State = State(
    closed: bool,
    wsOpen: bool,
    channels: set<nat>,
    bulk: seq<Upload>,
    flight: Option<Flight>,
    unconfirmed: seq<Unconfirmed>,
    window: nat,
    credited: bool,
    nextKey: nat,
    wire: seq<DownMsg>)

  const Fresh := State(false, true, {}, [], None, [], CREDIT_WINDOW_START, false, 0, [])

  function Total(u: seq<Unconfirmed>): nat {
    if u == [] then 0 else u[0].bytes + Total(u[1..])
  }

  lemma {:induction false} TotalSnoc(u: seq<Unconfirmed>, x: Unconfirmed)
    ensures Total(u + [x]) == Total(u) + x.bytes
  {
    if u == [] {
    } else {
      assert (u + [x])[1..] == u[1..] + [x];
      TotalSnoc(u[1..], x);
    }
  }

  /** How many payloads of a channel are queued. */
  function Count(bulk: seq<Upload>, id: nat): nat {
    if bulk == [] then 0 else (if bulk[0].id == id then 1 else 0) + Count(bulk[1..], id)
  }

  lemma {:induction false} CountSplit(a: seq<Upload>, b: seq<Upload>, id: nat)
    ensures Count(a + b, id) == Count(a, id) + Count(b, id)
  {
    if a == [] {
      assert a + b == b;
    } else {
      assert (a + b)[1..] == a[1..] + b;
      CountSplit(a[1..], b, id);
    }
  }

  /** Taking one payload out of the queue takes one off its channel's count, and no other. */
  lemma CountSplice(bulk: seq<Upload>, i: nat, id: nat)
    requires i < |bulk|
    ensures Count(bulk, id) == Count(bulk[..i] + bulk[i + 1..], id) + (if bulk[i].id == id then 1 else 0)
  {
    assert bulk == bulk[..i] + bulk[i..];
    CountSplit(bulk[..i], bulk[i..], id);
    CountSplit(bulk[..i], bulk[i + 1..], id);
  }

  /** The queue without the payloads of the channels in `gone`. */
  function Without(bulk: seq<Upload>, gone: set<nat>): seq<Upload> {
    if bulk == [] then []
    else (if bulk[0].id in gone then [] else [bulk[0]]) + Without(bulk[1..], gone)
  }

  /** The same, but the head stays: the pump drops it when its callback comes. */
  function Purge(bulk: seq<Upload>, gone: set<nat>): seq<Upload> {
    if bulk == [] then [] else [bulk[0]] + Without(bulk[1..], gone)
  }

  lemma {:induction false} WithoutTwice(bulk: seq<Upload>, a: set<nat>, b: set<nat>)
    ensures Without(Without(bulk, a), b) == Without(bulk, a + b)
  {
    if bulk == [] {
    } else {
      WithoutTwice(bulk[1..], a, b);
      if bulk[0].id !in a {
        assert ([bulk[0]] + Without(bulk[1..], a))[1..] == Without(bulk[1..], a);
      } else {
        assert Without(bulk, a) == Without(bulk[1..], a);
      }
    }
  }

  lemma PurgeTwice(bulk: seq<Upload>, a: set<nat>, b: set<nat>)
    ensures Purge(Purge(bulk, a), b) == Purge(bulk, a + b)
  {
    if bulk != [] {
      WithoutTwice(bulk[1..], a, b);
      assert Purge(bulk, a)[1..] == Without(bulk[1..], a);
    }
  }

  lemma {:induction false} WithoutNone(bulk: seq<Upload>)
    ensures Without(bulk, {}) == bulk
  {
    if bulk != [] { WithoutNone(bulk[1..]); }
  }

  lemma PurgeNone(bulk: seq<Upload>)
    ensures Purge(bulk, {}) == bulk
  {
    if bulk != [] { WithoutNone(bulk[1..]); }
  }

  /** The piece being written is a piece of the head of the queue, and starts where the head stands. */
  predicate Sound(s: State) {
    && (s.flight.Some? ==>
          && s.bulk != []
          && s.bulk[0].key == s.flight.value.key
          && s.flight.value.end == Min(s.bulk[0].at + SLICE_BYTES, |s.bulk[0].payload|)
          && s.flight.value.last == (s.flight.value.end >= |s.bulk[0].payload|))
    && CREDIT_WINDOW_MIN <= s.window <= CREDIT_WINDOW_MAX
  }

  function Pump(s: State, now: int): (t: State)
    requires Sound(s)
    ensures Sound(t)
  {
    if s.flight.Some? || s.bulk == [] then s
    else if s.closed || !s.wsOpen then s.(bulk := [])
    else if s.credited && Total(s.unconfirmed) >= s.window then s
    else
      var head := s.bulk[0];
      var end := Min(head.at + SLICE_BYTES, |head.payload|);
      var last := end >= |head.payload|;
      var piece := SliceOf(head.id, head.payload[head.at..end], last);
      s.(unconfirmed := s.unconfirmed + [Unconfirmed(|piece|, now)],
         flight := Some(Flight(head.key, end, last)),
         wire := s.wire + [Binary(piece)])
  }

  function SendBinary(s: State, id: nat, payload: seq<byte>, now: int): (t: State)
    requires Sound(s)
    ensures Sound(t)
  {
    if s.closed || !s.wsOpen then s
    else if |payload| <= SLICE_BYTES && Count(s.bulk, id) == 0 then
      s.(wire := s.wire + [Binary(FrameOf(id, payload))])
    else
      Pump(s.(bulk := s.bulk + [UploadFields(s.nextKey, id, payload, 0)], nextKey := s.nextKey + 1), now)
  }

  /** The queue once the piece in `f` is known to have been taken. */
  function Advanced(s: State, f: Flight): seq<Upload>
    requires Sound(s) && s.flight == Some(f)
  {
    if f.last || s.bulk[0].id !in s.channels then s.bulk[1..]
    else [s.bulk[0].(at := f.end)] + s.bulk[1..]
  }

  /** The socket has taken the piece it was given. */
  function SendTaken(s: State, now: int): (t: State)
    requires Sound(s)
    ensures Sound(t)
  {
    if s.flight.None? then s
    else Pump(s.(flight := None, bulk := Advanced(s, s.flight.value)), now)
  }

  /** The socket reported an error for the piece. */
  function SendFailed(s: State): (t: State)
    requires Sound(s)
    ensures Sound(t)
  {
    s.(flight := None)
  }

  function Adjusted(window: nat, age: int): (w: nat)
    requires CREDIT_WINDOW_MIN <= window <= CREDIT_WINDOW_MAX
    ensures CREDIT_WINDOW_MIN <= w <= CREDIT_WINDOW_MAX
  {
    if age > SLOW_PIECE_MS then Max(CREDIT_WINDOW_MIN, window / 2)
    else if age < QUICK_PIECE_MS then Min(CREDIT_WINDOW_MAX, window + SLICE_BYTES)
    else window
  }

  /** `left` confirmed bytes settled against the oldest pieces, and the window that follows. */
  function Settle(u: seq<Unconfirmed>, left: int, window: nat, now: int): (r: (seq<Unconfirmed>, nat))
    requires CREDIT_WINDOW_MIN <= window <= CREDIT_WINDOW_MAX
    ensures CREDIT_WINDOW_MIN <= r.1 <= CREDIT_WINDOW_MAX
  {
    if left <= 0 || u == [] then (u, window)
    else
      var w := Adjusted(window, now - u[0].at);
      if u[0].bytes <= left then Settle(u[1..], left - u[0].bytes, w, now)
      else ([u[0].(bytes := u[0].bytes - left)] + u[1..], w)
  }

  /** Exactly the confirmed bytes leave the books, and never more than were there. */
  lemma {:induction false} SettleTotal(u: seq<Unconfirmed>, left: int, window: nat, now: int)
    requires CREDIT_WINDOW_MIN <= window <= CREDIT_WINDOW_MAX
    ensures Total(Settle(u, left, window, now).0) == Max(0, Total(u) - Max(0, left))
  {
    if left <= 0 || u == [] {
    } else if u[0].bytes <= left {
      SettleTotal(u[1..], left - u[0].bytes, Adjusted(window, now - u[0].at), now);
    } else {
      var rest := [u[0].(bytes := u[0].bytes - left)] + u[1..];
      assert rest[1..] == u[1..];
    }
  }

  /** The browser confirmed `n` bytes of pieces. */
  function Took(s: State, n: int, now: int): (t: State)
    requires Sound(s)
    ensures Sound(t)
  {
    if n <= 0 then s
    else
      var r := Settle(s.unconfirmed, n, s.window, now);
      Pump(s.(credited := true, unconfirmed := r.0, window := r.1), now)
  }

  function Tell(s: State, m: DownMsg): State {
    if s.closed || !s.wsOpen then s else s.(wire := s.wire + [m])
  }

  function CloseChannel(s: State, id: nat): (t: State)
    requires Sound(s)
    ensures Sound(t)
  {
    if id !in s.channels then s
    else Tell(s.(channels := s.channels - {id}, bulk := Purge(s.bulk, {id})), Closed(id))
  }

  /** An `open` request; `known` says whether a service offers such a channel. */
  function OpenArrives(s: State, id: nat, known: bool): (t: State)
    requires Sound(s)
    ensures Sound(t)
  {
    if id in s.channels || !known then Tell(s, Closed(id))
    else s.(channels := s.channels + {id})
  }

  /** The opener threw, or its promise rejected. */
  function OpenFails(s: State, id: nat): (t: State)
    requires Sound(s)
    ensures Sound(t)
  {
    Tell(s.(channels := s.channels - {id}), Closed(id))
  }

  /** The socket's close or error event. */
  function Dispose(s: State): (t: State)
    requires Sound(s)
    ensures Sound(t)
  {
    if s.closed then s
    else s.(closed := true, channels := {}, bulk := Purge(s.bulk, s.channels))
  }
}
