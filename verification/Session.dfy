/**
 A browser connection as server/src/session.ts keeps it. Each method is proved
 to do what the function of the same name in SessionSteps does.
 */
module Session {
  import opened Bytes
  import opened SliceWire
  import opened Steps = SessionSteps

  class Session {
    var closed: bool
    var wsOpen: bool
    var channels: set<nat>
    var bulk: seq<Upload>
    var bulkByChannel: map<nat, nat>
    var pumping: bool
    var flight: Option<Flight>
    var unconfirmed: seq<Unconfirmed>
    var inflight: int
    var window: nat
    var credited: bool
    var nextKey: nat
    var wire: seq<DownMsg>

    ghost predicate Counted()
      reads this
    {
      forall id: nat ::
        && (id in bulkByChannel <==> Count(bulk, id) > 0)
        && (id in bulkByChannel ==> bulkByChannel[id] == Count(bulk, id))
    }

    /** The counters say what they count, and a callback is outstanding exactly while pumping. */
    ghost predicate Valid()
      reads this
    {
      && Counted()
      && inflight == Total(unconfirmed)
      && pumping == flight.Some?
      && Sound(View())
    }

    ghost function View(): State
      reads this
    {
      State(closed, wsOpen, channels, bulk, flight, unconfirmed, window, credited, nextKey, wire)
    }

    constructor ()
      ensures Valid() && View() == Fresh
    {
      closed, wsOpen, channels := false, true, {};
      bulk, bulkByChannel, pumping, flight := [], map[], false, None;
      unconfirmed, inflight, window, credited := [], 0, CREDIT_WINDOW_START, false;
      nextKey, wire := 0, [];
    }

    method SendBinary(channelId: nat, payload: seq<byte>, now: int)
      requires Valid()
      modifies this
      ensures Valid() && View() == Steps.SendBinary(old(View()), channelId, payload, now)
    {
      hide FrameOf, Steps.Pump;
      if closed || !wsOpen { return; }
      if |payload| <= SLICE_BYTES && channelId !in bulkByChannel {
        var frame := EncodeBinaryFrame(channelId, payload);
        wire := wire + [Binary(frame[..])];
        return;
      }
      Enqueue(channelId, payload);
      Pump(now);
    }

    /** One more payload behind all others, and one more on its channel's count. */
    method Enqueue(channelId: nat, payload: seq<byte>)
      requires Counted()
      modifies `bulk, `bulkByChannel, `nextKey
      ensures Counted() && nextKey == old(nextKey) + 1
      ensures bulk == old(bulk) + [UploadFields(old(nextKey), channelId, payload, 0)]
    {
      hide Count;
      var upload: Upload := UploadFields(nextKey, channelId, payload, 0);
      forall id: nat
        ensures Count(bulk + [upload], id) == Count(bulk, id) + (if id == channelId then 1 else 0)
      {
        var more := bulk + [upload];
        CountSplice(more, |bulk|, id);
        assert more[..|bulk|] + more[|bulk| + 1..] == bulk;
      }
      bulk, nextKey := bulk + [upload], nextKey + 1;
      bulkByChannel := bulkByChannel[channelId :=
        (if channelId in bulkByChannel then bulkByChannel[channelId] else 0) + 1];
    }

    method Pump(now: int)
      requires Valid()
      modifies this
      ensures Valid() && View() == Steps.Pump(old(View()), now)
    {
      hide SliceOf, Total, Count;
      CountNone();
      if pumping || |bulk| == 0 { return; }
      if closed || !wsOpen {
        bulk, bulkByChannel := [], map[];
        return;
      }
      if credited && inflight >= window { return; }
      SendPiece(now);
    }

    lemma CountNone()
      ensures forall id :: Count([], id) == 0
    {
    }

    /** The next piece of the head, entered in the books. */
    method SendPiece(now: int)
      requires inflight == Total(unconfirmed) && |bulk| > 0
      modifies `unconfirmed, `inflight, `pumping, `flight, `wire
      ensures var head := bulk[0];
        var end := Min(head.at + SLICE_BYTES, |head.payload|);
        var last := end >= |head.payload|;
        var piece := SliceOf(head.id, head.payload[head.at..end], last);
        && unconfirmed == old(unconfirmed) + [Unconfirmed(|piece|, now)]
        && wire == old(wire) + [Binary(piece)]
        && flight == Some(Flight(head.key, end, last)) && pumping
      ensures inflight == Total(unconfirmed)
    {
      hide SliceOf;
      var head := bulk[0];
      var end := Min(head.at + SLICE_BYTES, |head.payload|);
      var last := end >= |head.payload|;
      var piece := EncodeSlice(head.id, head.payload[head.at..end], last);
      TotalSnoc(unconfirmed, Unconfirmed(piece.Length, now));
      unconfirmed := unconfirmed + [Unconfirmed(piece.Length, now)];
      inflight := inflight + piece.Length;
      pumping, flight := true, Some(Flight(head.key, end, last));
      wire := wire + [Binary(piece[..])];
    }

    /** The callback the pump gave to the socket. */
    method SendCallback(err: bool, now: int)
      requires Valid() && flight.Some?
      modifies this
      ensures Valid()
      ensures View() == if err then SendFailed(old(View())) else SendTaken(old(View()), now)
    {
      hide Count, Steps.Pump;
      var f := flight.value;
      pumping, flight := false, None;
      if err { return; }
      if |bulk| > 0 && bulk[0].key == f.key {
        var id := bulk[0].id;
        AdvanceHead(f.end);
        if f.last || id !in channels { Dequeue(); }
      }
      Pump(now);
    }

    method AdvanceHead(end: nat)
      requires Counted() && |bulk| > 0 && end <= |bulk[0].payload|
      modifies `bulk
      ensures Counted()
      ensures bulk == [old(bulk[0]).(at := end)] + old(bulk)[1..]
    {
      var rest := bulk[1..];
      bulk := [bulk[0].(at := end)] + rest;
      assert bulk[1..] == rest;
    }

    method Dequeue()
      requires Counted()
      modifies `bulk, `bulkByChannel
      ensures Counted()
      ensures bulk == if old(bulk) == [] then [] else old(bulk)[1..]
    {
      if |bulk| == 0 { return; }
      var head := bulk[0];
      var left := (if head.id in bulkByChannel then bulkByChannel[head.id] else 1) - 1;
      bulk := bulk[1..];
      if left <= 0 {
        bulkByChannel := bulkByChannel - {head.id};
      } else {
        bulkByChannel := bulkByChannel[head.id := left];
      }
    }

    method Took(n: int, now: int)
      requires Valid()
      modifies this
      ensures Valid() && View() == Steps.Took(old(View()), n, now)
    {
      hide Count, Total, Steps.Pump, Settle;
      if n <= 0 { return; }
      credited := true;
      SettleTotal(unconfirmed, n, window, now);
      SettleOldest(n, now);
      inflight := Max(0, inflight - n);
      Pump(now);
    }

    /** Confirmed bytes against the oldest pieces, each of which moves the window by its age. */
    method SettleOldest(n: int, now: int)
      requires CREDIT_WINDOW_MIN <= window <= CREDIT_WINDOW_MAX
      modifies `unconfirmed, `window
      ensures (unconfirmed, window) == Settle(old(unconfirmed), n, old(window), now)
    {
      var left := n;
      while left > 0 && |unconfirmed| > 0
        invariant CREDIT_WINDOW_MIN <= window <= CREDIT_WINDOW_MAX
        invariant Settle(unconfirmed, left, window, now) == Settle(old(unconfirmed), n, old(window), now)
        decreases |unconfirmed|, left
      {
        var oldest := unconfirmed[0];
        var age := now - oldest.at;
        if oldest.bytes <= left {
          left := left - oldest.bytes;
          unconfirmed := unconfirmed[1..];
        } else {
          unconfirmed := [oldest.(bytes := oldest.bytes - left)] + unconfirmed[1..];
          left := 0;
        }
        if age > SLOW_PIECE_MS {
          window := Max(CREDIT_WINDOW_MIN, window / 2);
        } else if age < QUICK_PIECE_MS {
          window := Min(CREDIT_WINDOW_MAX, window + SLICE_BYTES);
        }
      }
    }

    method CloseChannel(id: nat)
      requires Valid()
      modifies this
      ensures Valid() && View() == Steps.CloseChannel(old(View()), id)
    {
      if id !in channels { return; }
      channels := channels - {id};
      DropQueued(id);
      if !closed && wsOpen { wire := wire + [Closed(id)]; }
    }

    /** From the back, so that what is still to be looked at keeps its index. */
    method DropQueued(id: nat)
      requires Counted()
      modifies `bulk, `bulkByChannel
      ensures Counted()
      ensures bulk == Purge(old(bulk), {id})
    {
      hide Count, Without;
      ghost var was := bulk;
      WithoutNothing({id});
      var i := |bulk| - 1;
      assert was[i + 1..] == [] && was[..i + 1] + [] == was;
      while i >= 1
        invariant |was| == 0 ==> i == -1
        invariant |was| > 0 ==> 0 <= i < |was|
        invariant bulk == was[..i + 1] + Without(was[i + 1..], {id})
        invariant Counted()
      {
        PurgeOne(was, i, id);
        if bulk[i].id == id { RemoveAt(i); }
        i := i - 1;
      }
    }

    lemma WithoutNothing(gone: set<nat>)
      ensures Without([], gone) == []
    {
    }

    /** Looking at one more from the back. */
    lemma PurgeOne(was: seq<Upload>, i: nat, id: nat)
      requires 0 < i < |was|
      ensures var back := Without(was[i + 1..], {id});
        var bulk := was[..i + 1] + back;
        && bulk[i] == was[i] && bulk[..i] + bulk[i + 1..] == was[..i] + back
        && was[..i] + Without(was[i..], {id}) == (if was[i].id == id then was[..i] + back else bulk)
    {
      var back := Without(was[i + 1..], {id});
      assert was[i..][1..] == was[i + 1..];
      assert Without(was[i..], {id}) == (if was[i].id == id then [] else [was[i]]) + back;
      hide Without;
      assert [] + back == back;
      SpliceAt(was[..i], was[i], was[..i + 1], back);
    }

    /** An element between two stretches, taken out or left. */
    lemma SpliceAt(a: seq<Upload>, x: Upload, ax: seq<Upload>, back: seq<Upload>)
      requires ax == a + [x]
      ensures var all := ax + back;
        && all[|a|] == x && all[..|a|] + all[|a| + 1..] == a + back && a + ([x] + back) == all
    {
    }

    method RemoveAt(i: nat)
      requires Counted() && i < |bulk|
      modifies `bulk, `bulkByChannel
      ensures Counted()
      ensures bulk == old(bulk[..i] + bulk[i + 1..])
    {
      hide Count;
      var id := bulk[i].id;
      forall c: nat
        ensures Count(bulk, c) == Count(bulk[..i] + bulk[i + 1..], c) + (if c == id then 1 else 0)
      {
        CountSplice(bulk, i, c);
      }
      bulk := bulk[..i] + bulk[i + 1..];
      var left := (if id in bulkByChannel then bulkByChannel[id] else 1) - 1;
      if left <= 0 {
        bulkByChannel := bulkByChannel - {id};
      } else {
        bulkByChannel := bulkByChannel[id := left];
      }
    }

    method Dispose()
      requires Valid()
      modifies this
      ensures Valid() && View() == Steps.Dispose(old(View()))
    {
      hide Count, Total, Purge;
      if closed { return; }
      closed := true;
      var ids := channels;
      ghost var done: set<nat> := {};
      PurgeNone(bulk);
      while ids != {}
        invariant ids !! done && ids + done == old(channels) && channels == ids
        invariant Valid()
        invariant View() == old(View()).(closed := true, channels := ids, bulk := Purge(old(bulk), done))
        decreases ids
      {
        var id :| id in ids;
        PurgeTwice(old(bulk), done, {id});
        CloseChannel(id);
        ids, done := ids - {id}, done + {id};
      }
    }
  }
}
