/** The browser's end of the binary stream, client/src/core/rpc.ts: a page, and one function per event. */
module Browser {
  import opened Bytes
  import opened SliceWire
  import opened SessionSteps

  /** What goes up the socket, of which only these three matter here. */
  datatype UpMsg = Open(id: nat) | Close(id: nat) | TookBytes(n: nat)

  /** `delivered` is the history of each channel's onBinary calls. */
  datatype Page = Page(
    open: bool,
    nextId: nat,
    channels: set<nat>,
    held: map<nat, seq<byte>>,
    up: seq<UpMsg>,
    delivered: map<nat, seq<seq<byte>>>)

  const Blank := Page(true, 1, {}, map[], [], map[])

  /** The payloads recorded under `id`. */
  function Log(m: map<nat, seq<seq<byte>>>, id: nat): seq<seq<byte>> {
    if id in m then m[id] else []
  }

  function Say(p: Page, m: UpMsg): Page {
    if p.open then p.(up := p.up + [m]) else p
  }

  function OpenChannel(p: Page): Page {
    var q := p.(nextId := p.nextId + 1);
    if p.open then Say(q.(channels := p.channels + {p.nextId}), Open(p.nextId)) else q
  }

  function MarkClosed(p: Page, id: nat): Page {
    if id in p.channels then p.(channels := p.channels - {id}, held := p.held - {id}) else p
  }

  function CloseByUser(p: Page, id: nat): Page {
    if id in p.channels then MarkClosed(Say(p, Close(id)), id) else p
  }

  function Receive(p: Page, m: DownMsg): Page {
    match m
    case Closed(id) => MarkClosed(p, id)
    case Binary(bytes) =>
      match DecodeBinaryFrame(bytes)
      case None => p
      case Some(frame) =>
        var q := if frame.sliced then Say(p, TookBytes(|bytes|)) else p;
        var (held, whole) := Assemble(p.held, frame);
        var r := q.(held := held);
        if whole.Some? && frame.channelId in p.channels then
          r.(delivered := p.delivered[frame.channelId := Log(p.delivered, frame.channelId) + [whole.value]])
        else r
  }

  function Disconnect(p: Page): Page {
    p.(open := false, channels := {}, held := map[])
  }
}
