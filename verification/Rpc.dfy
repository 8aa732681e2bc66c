/** The browser's end of the binary stream as client/src/core/rpc.ts keeps it. */
module Rpc {
  import opened Bytes
  import opened SliceWire
  import opened SessionSteps
  import opened Browser

  class RpcClient {
    var open: bool
    var nextId: nat
    var channels: set<nat>
    const slices: SliceAssembler
    var up: seq<UpMsg>
    var delivered: map<nat, seq<seq<byte>>>

    ghost function View(): Page
      reads this, slices
    {
      Page(open, nextId, channels, slices.View(), up, delivered)
    }

    constructor ()
      ensures View() == Blank
      ensures fresh(slices)
    {
      open, nextId, channels, up, delivered := true, 1, {}, [], map[];
      slices := new SliceAssembler();
    }

    method SendMessage(m: UpMsg)
      modifies `up
      ensures View() == Say(old(View()), m)
    {
      if !open { return; }
      up := up + [m];
    }

    method OpenChannel() returns (id: nat)
      modifies this
      ensures id == old(nextId) && View() == Browser.OpenChannel(old(View()))
    {
      id := nextId;
      nextId := nextId + 1;
      if !open { return; }
      channels := channels + {id};
      SendMessage(Open(id));
    }

    method ReleaseChannel(id: nat)
      modifies `channels, slices
      ensures View() == old(View()).(channels := old(channels) - {id}, held := old(View().held) - {id})
    {
      channels := channels - {id};
      slices.Forget(id);
    }

    method MarkClosed(id: nat)
      modifies `channels, slices
      ensures View() == Browser.MarkClosed(old(View()), id)
    {
      if id !in channels { return; }
      ReleaseChannel(id);
    }

    method CloseByUser(id: nat)
      modifies this, slices
      ensures View() == Browser.CloseByUser(old(View()), id)
    {
      if id !in channels { return; }
      SendMessage(Close(id));
      MarkClosed(id);
    }

    method OnMessage(m: DownMsg)
      modifies this, slices
      ensures View() == Receive(old(View()), m)
    {
      match m {
        case Closed(id) => MarkClosed(id);
        case Binary(bytes) =>
          var frame := DecodeBinaryFrame(bytes);
          if frame.None? { return; }
          var id := frame.value.channelId;
          if frame.value.sliced { SendMessage(TookBytes(|bytes|)); }
          var payload := slices.Push(frame.value);
          if payload.Some? && id in channels {
            delivered := delivered[id := (if id in delivered then delivered[id] else []) + [payload.value]];
          }
      }
    }

    method OnDisconnect()
      modifies this, slices
      ensures View() == Disconnect(old(View()))
    {
      open := false;
      var left := channels;
      while left != {}
        invariant left <= channels
        invariant unchanged(`nextId, `up, `delivered) && !open
        decreases left
      {
        var id :| id in left;
        MarkClosed(id);
        left := left - {id};
      }
      channels := {};
      slices.Clear();
    }
  }
}
