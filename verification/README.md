# Finestra, verified

Finestra puts the windows, terminals and desktop messages of a Linux host on a
page in a browser. A compositor in C draws applications, a server in TypeScript
carries everything over one socket, and the page puts it back together. This
project models the parts of that path whose correctness is a property of whole
runs, and proves it.

| part | modules | what is proved of it |
|---|---|---|
| sliced, credit-paced channels | SliceWire, SessionSteps, Session, Browser, Rpc, SliceProtocol, SliceSafety, SliceRuns, SliceResults, SliceExact, CreditWindow | payloads arrive in order and whole under every interleaving; credit is conserved; the sender cannot get stuck; everything sent arrives |
| channel lifecycle | Channels | every channel is told of its end exactly once, and when that fails; which ends are losses |
| frames of a window | Pictures, FrameSteps, SurfaceObject (Surface.dfy), FrameProtocol, FrameResults, FrameExact | the page's picture is the canvas, and the window, outside what is pending; pacing; when a commit breaks it |
| stacking and placing | Subsurface, Popup | restacking is a move in one sequence; popups lie inside, flips mirror |
| D-Bus codec | DBusSignature, DBusValues, DBusRoundTrip, DBusWriter, DBusReader, DBusMessage, DBusCodec, DBusFormat, DBusMessageFormat | reading undoes writing, message and stream; what is written is the specification's format |
| proxy and framing | Framing, BusProxy, PortalRequests, BusRuns, Ipc | frames pass unchanged however the bytes are cut; when the cutting decides who answers a call |
| terminals | Ring, Terminal, Shell | the scrollback is the end of the stream; who is hung up, and why |
| disk usage | TreeWalk | the totals do not depend on the schedule |
| X clipboard | Latin1, Incr, XClipboard | text arrives piece by piece |

State that the source changes in place is a class here: each method is proved
to compute what a step function over values says. What is promised over whole
runs is proved of those step functions, as lemmas over every sequence of
events. What single steps do is stated a second time apart from them, in bytes,
numbers, milliseconds and strings: the modules ending in Exact, CreditWindow,
DBusFormat and DBusMessageFormat, and the lemmas named so elsewhere. Bytes.dfy
has bytes and big-endian numbers.

`dafny verify dfyconfig.toml` checks all of it.

## Hypotheses

- Frames. The page's drawing code is not part of this model: a frame that names
  another full size replaces the picture, then its rectangle is drawn. That the
  picture is the canvas asks of clients only whole damage at a change of size;
  that the canvas is the window asks them to be honest: a commit differs from
  the one before only inside its damage, and damages the whole window when that
  moves or changes size. Buffers convert without failure and memory does not
  run out.
- Slices. The socket keeps order. A write fails only on a socket that is no
  longer open. Ids a page hands out stay below 2^32, the four bytes a frame has
  for them, and are used once.
- Channels. A channel object is named by the number of its opening. What an
  `onClose` does in turn is an event of its own. The proofs do not need ids to
  be fresh, except where that is said.
- D-Bus, following the D-Bus Specification, sections "Marshaling (Wire Format)"
  and "Message Format". Types are well formed: no empty struct, dictionary
  entries only as elements of arrays. Strings are bytes, a double is its eight
  bytes, header strings are not empty when present, signatures have at most 255
  bytes, and a marshalled message is shorter than 2^32.
- Proxy. A turn of the server's loop is not interrupted: a chunk is gone through
  under the portal as it is, which changes meanwhile only when a connection
  closes a request of its own. All else that changes the portal or the owner of
  its name comes in turns between chunks, at any moments. Names of connections
  are as the D-Bus Specification has them, section "Bus names"; one that has
  none yet is the empty name, and a request is at a path made of its sender's.
- Terminals. One read of a terminal is no longer than the scrollback. Attaching
  and its replay are one step. Bytes sent to a window reach it.
- Tree walk. The outcome of each file system call is fixed; the order in which
  calls finish, and the moments at which the walk is seen to be cancelled, are
  not.
- X clipboard. Requestors and owners follow section 2.7.2 of the ICCCM: a
  requestor reads a property before it deletes it, and asks again only when it
  is through. A deletion and its notice are one step.
- Integers have no width, except where the width matters: ids and lengths on
  the wire, and the mask in the proxy's frame length.

## Where the source differs from what it says

- compositor/src/wdcomp.c:674-678 says a resize while a frame is out makes the
  drawn rectangle the whole window. The test at lines 656-657 is against the
  size last sent, so a window that is resized and returns to that size before
  the acknowledgement is drawn only where it is damaged, on a canvas just
  cleared. `FrameProtocol.CommitExact` says exactly when a commit is safe;
  `FrameResults.ThereAndBackDiffers` gives the family of failures.
- server/src/service.ts:63-71 promises `onClose` exactly once.
  `Channels.ReuseForgets` shows a run in which a channel never gets it, because
  an id was reused while its first opener was still busy; the page never
  reuses one. `Channels.UntellableForgets` shows another, in which the `opened`
  message throws, as for an `info` that JSON cannot hold; the services hand in
  plain values. `Channels.ToldExactlyOnce` has the exact condition.
- compositor/src/xwm.c:489-490 says a transfer is given up when its requestor
  has stopped deleting pieces. The clock is never restarted, so one that is
  still reading is cut off as well, if another long paste comes ten seconds
  after it began: `Incr.CutShort`, `Incr.ReaderCutOff`.
- server/src/services/pty.ts:82-99 counts only what it keeps of a push larger
  than the whole ring, so that later offsets lag behind the stream, and after a
  first such push the cut at a line is not made: `Ring.OffsetsAreTheStreams`,
  `Ring.OversizedFirst`.
- server/src/busproxy.ts:351-361 diverts the close of a request the proxy has
  open. A dialog's request is open only after a wait (server/src/portal.ts:231),
  so whether a close that follows at once is answered here or sent to the bus is
  decided by how the two calls are cut into chunks: `BusRuns.OpenThenClose`. It
  can happen exactly with a stream that closes something at a path a request
  can have: `BusRuns.CutsDoNotMatter`.
- server/src/busproxy.ts:51 rounds with a 32-bit mask, and agrees with the
  decoder only below 2^31: `BusProxy.LengthsAgree`.

## Model

| member | source | states |
|---|---|---|
| SliceWire.DecodeSlice | shared/protocol.ts:268-319 | decoding undoes `encodeSlice`: the id modulo 2^32, the piece, whether more follows, and that it is a piece to be credited |
| SliceWire.DecodeFrame | shared/protocol.ts:287-319 | decoding undoes `encodeBinaryFrame`, and a whole frame is never mistaken for a piece |
| SliceWire.EncodeSlice | shared/protocol.ts:268-282 | the byte array filled in place is header, last-flag and piece |
| SliceWire.EncodeBinaryFrame | shared/protocol.ts:287-297 | the byte array filled in place is the five-byte header and the payload |
| SliceWire.SliceAssembler.Push | shared/protocol.ts:329-348 | pieces of one channel are held in order and come out as one payload with the last; nothing of another channel changes |
| SliceWire.SliceAssembler.Forget | shared/protocol.ts:351-353 | what was held for a channel is dropped, and only that |
| SliceWire.SliceAssembler.Clear | shared/protocol.ts:355-357 | nothing is held any more |
| SliceWire.Join | shared/protocol.ts:339-347 | the pieces copied one after the other are their concatenation |
| SliceExact.WholeExactly | shared/protocol.ts:287-297 | a whole payload is the byte 1, the channel in four bytes, most significant first, and the payload |
| SliceExact.SliceExactly | shared/protocol.ts:268-282 | a piece is the byte 2, the channel, 1 for the last and 0 for others, and its bytes |
| SliceExact.DecodeExactly | shared/protocol.ts:309-319 | and nothing else is a frame |
| SliceExact.StartExactly | server/src/session.ts:86-94 | a connection starts with a window of 64 KiB and no credit confirmed, a page with channel 1 |
| SliceExact.PumpExactly | server/src/session.ts:143-175 | when a piece is written, how much of which payload, in which bytes, and what is booked for it |
| SliceExact.SendExactly | server/src/session.ts:132-141 | up to 16 KiB go out at once unless the channel has something queued; all else waits behind everything |
| SliceExact.TakenExactly | server/src/session.ts:163-174 | a piece through, its payload stands behind it, or leaves if that was all or its channel has gone |
| SliceExact.CloseExactly | server/src/session.ts:336-356 | the page is told; behind the head nothing of the channel stays queued and everything else does |
| SliceExact.OpenExactly | server/src/session.ts:293-333 | an id in use, an unknown channel, a failed opening: the page is told, and what that does to the channels |
| SliceExact.DisposeExactly | server/src/session.ts:395-400 | no channel is left, nobody is told, and what was queued for them goes, but for the head |
| SliceExact.ReceiveExactly | client/src/core/rpc.ts:247-260 | what is credited, held, and delivered of each message |
| SliceExact.PageExactly | client/src/core/rpc.ts:80-320 | opening, closing and losing the connection, on the page |
| SliceExact.StepsExactly | server/src/session.ts:251-270 | which step each message of the page leads to |
| CreditWindow.TookFollows | server/src/session.ts:195-210 | a confirmation moves the window once for each piece it reaches, oldest first: halved, not below 16 KiB, for more than 500 ms; 16 KiB wider, not above 512, for less than 200; else not |
| CreditWindow.ReachedAre | server/src/session.ts:195-205 | the pieces it reaches are those before which fewer bytes are unconfirmed than it confirms |
| CreditWindow.SlowShrinks | server/src/session.ts:206-209 | when all were slow the window never rises: it is halved once for each |
| CreditWindow.QuickGrows | server/src/session.ts:206-209 | when all were quick it never falls: 16 KiB more for each |
| CreditWindow.BetweenStays | server/src/session.ts:206-209 | when all took between 200 and 500 ms it stays |
| CreditWindow.TookNewest | server/src/session.ts:195-205 | what stays unconfirmed are the newest pieces, the oldest of them in part |
| Session.Session.SendBinary | server/src/session.ts:132-141 | a small payload goes out at once unless its channel has something queued; all else is queued behind; the per-channel counters go on counting the queue |
| Session.Session.Pump | server/src/session.ts:143-175 | at most one piece at a time, none beyond the credit window, the queue dropped on a dead socket; `inflight` stays the sum of the unconfirmed bytes |
| Session.Session.SendCallback | server/src/session.ts:163-174 | the head advances by the piece taken, or leaves when that was the last or its channel is gone; an error stops the pump |
| Session.Session.Took | server/src/session.ts:191-213 | confirmed bytes leave the books oldest first and move the window by the age of each piece |
| Session.Session.SettleOldest | server/src/session.ts:195-210 | the loop settles against the oldest pieces exactly as the recursive account does, and the window stays in its bounds |
| SessionSteps.SettleTotal | server/src/session.ts:191-211 | settling takes exactly the confirmed bytes off the total, never more than there were |
| Session.Session.CloseChannel | server/src/session.ts:336-356 | a channel is closed once; its queued payloads go, but for the one being written |
| Session.Session.DropQueued | server/src/session.ts:340-349 | the backward splicing loop removes exactly the payloads of that channel behind the head, and the counters agree |
| Session.Session.Dispose | server/src/session.ts:395-400 | the first close or error event closes every channel, whatever their order |
| SessionSteps.PurgeTwice | server/src/session.ts:336-349 | closing channels one after another leaves of the queue what closing them together would |
| Rpc.RpcClient.OnMessage | client/src/core/rpc.ts:247-260 | every piece is credited with its full length on arrival, before it is joined; a payload completed goes to its channel, if that is still open |
| Rpc.RpcClient.OpenChannel | client/src/core/rpc.ts:201-218 | ids count up; a channel is registered and asked for only on an open socket |
| Rpc.RpcClient.CloseByUser | client/src/core/rpc.ts:80-84 | closing tells the server once and releases the channel |
| Rpc.RpcClient.MarkClosed | client/src/core/rpc.ts:87-92 | a channel is released once |
| Rpc.RpcClient.ReleaseChannel | client/src/core/rpc.ts:242-245 | the channel is forgotten, and any part of a payload held for it |
| Rpc.RpcClient.OnDisconnect | client/src/core/rpc.ts:307-320 | a lost connection leaves no channel and no held piece |
| SliceSafety.PumpKeeps | server/src/session.ts:143-160 | cutting a piece off the head of the queue changes nothing of what will come out at the far end, on any channel |
| SliceRuns.StepSafe | server/src/session.ts:132-183 | no event at either end, in any order, breaks the stream: the invariant behind the results below |
| SliceResults.DeliveredInOrder | server/src/session.ts:132-183 | in every run what a channel's reader was given is a prefix of the payloads sent on it: in order, each whole, none twice, none of another channel |
| SliceResults.CreditInTransit | server/src/session.ts:191-213 | in every run the unconfirmed bytes are those of the pieces on the wire and of the confirmations on their way back; the window is between 16 KiB and 512 KiB |
| SliceResults.SenderNeverStuck | server/src/session.ts:143-175 | a non-empty queue on a healthy socket always has a callback, a piece or a confirmation outstanding |
| SliceResults.OvershootsByOnePiece | server/src/session.ts:152-157 | once credited, a piece sent leaves the unconfirmed bytes below the window plus 16390 |
| SliceResults.QuietMeansDelivered | server/src/session.ts:132-183 | at rest, a channel nobody closed has been given everything sent on it and holds no piece |
| SliceResults.InternalStepsRunOut | server/src/session.ts:143-213 | each callback and each message read leaves strictly less to do |
| SliceResults.NotQuietCanMove | server/src/session.ts:143-213 | a connection that is not at rest has a step of its own to take |
| SliceResults.EverythingArrives | server/src/session.ts:132-213 | after any run, whatever the order in which the connection goes on by itself, it comes to rest, and every open channel has then been given all that was sent |
| Channels.Registry.HandleOpen | server/src/session.ts:293-309 | an id in use is refused; an unknown channel is refused; else the id is reserved before the opener is awaited |
| Channels.Registry.OpenerReturned | server/src/session.ts:310-329 | a channel whose reservation is no longer there, or whose socket is gone, is told at once; else it takes its place; if telling either side throws, whatever stands under the id is deleted |
| Channels.Registry.OpenerRejected | server/src/session.ts:330-333 | a failed opening deletes whatever stands under its id |
| Channels.Registry.CloseChannel | server/src/session.ts:336-356 | what stands under an id is removed first and told after, at most once |
| Channels.Registry.Dispose | server/src/session.ts:395-400 | teardown closes every id there was as lost; a second call does nothing |
| Channels.StepKeeps | server/src/session.ts:293-356 | every event keeps the table in order, and takes a channel away untold exactly when a failed opening finds one under its id: another's, or its own |
| Channels.ToldExactlyOnce | server/src/session.ts:293-400 | in every run a returned channel is told at most once; it has been told nothing exactly while registered, or if a failed opening, of an earlier life of its id or its own, removed it; after teardown none is registered |
| Channels.LostMeansGone | server/src/session.ts:320-400 | a channel is told it was lost only once the socket is gone |
| Channels.LostExactly | server/src/session.ts:320-400 | in every run each closing says lost if and only if it came of the teardown, or of an opener that returned after the loss; those of a client or a service never do |
| Channels.StepTells | server/src/session.ts:293-400 | which channel each event tells, and whether as lost |
| Channels.DrainedLost | server/src/session.ts:395-400 | teardown tells exactly the channels there are, each that it is lost |
| Channels.FreshAllTold | server/src/service.ts:63-71 | with ids never used twice, every channel an opener returned has had its `onClose` exactly once by the end of the session, unless its own `opened` message could not be sent |
| Channels.ReuseForgets | server/src/session.ts:330-333 | with an id reused while its first opener is busy, a later failure of that opener leaves the second channel untold for good |
| Channels.UntellableForgets | server/src/session.ts:325-333 | a channel whose `opened` message cannot be put together is dropped and never told, fresh ids or not |
| Channels.DrainedTells | server/src/session.ts:395-400 | teardown run to its end leaves no channel registered and forgets none |
| Channels.SameChannels | server/src/session.ts:293-400 | the ids taken here are the channel set the bulk queue is purged by |
| FrameProtocol.HullHolds | compositor/src/wdcomp.c:547-563 | the bounding box holds every damaged pixel of the window |
| FrameProtocol.HullLeast | compositor/src/wdcomp.c:547-563 | and is the least box that does |
| FrameProtocol.DamageDrawn | compositor/src/wdcomp.c:540-564 | every damaged pixel is drawn, through the overflow, empty, clipped-away and forced fallbacks alike |
| FrameProtocol.DamageTight | compositor/src/wdcomp.c:540-564 | what is drawn is the whole window or lies in every rectangle around the damage |
| FrameResults.CommitFaithful | compositor/src/wdcomp.c:634-669 | if a commit differs from the last only inside its damage, drawing the bounding box alone leaves the canvas a copy of the window |
| FrameProtocol.EmitShows | compositor/src/wdcomp.c:707-727 | a frame whose rectangle takes in every difference makes the picture the canvas |
| FrameProtocol.AckShows | compositor/src/wdcomp.c:742-746 | after an acknowledgement the picture is the canvas and nothing is pending |
| FrameProtocol.CommitDiffers | compositor/src/wdcomp.c:652-699 | what a commit draws, united with what was pending, holds every difference from the picture |
| FrameProtocol.CommitAgrees | compositor/src/wdcomp.c:652-699 | a commit keeps picture and canvas equal outside the pending rectangle |
| FrameProtocol.CommitExact | compositor/src/wdcomp.c:656-694 | a commit does so, whatever picture of the last sent size the page has, if and only if it is drawn whole or keeps the canvas's size |
| FrameProtocol.UncoveredDiffers | compositor/src/wdcomp.c:656-694 | otherwise some picture the page may have is left wrong outside what is pending |
| FrameResults.ThereAndBackDiffers | compositor/src/wdcomp.c:672-694 | a window resized while a frame is out and brought back to the size last sent, with little drawn, is left out of step: the comment in the source says otherwise |
| FrameResults.StepInStep | compositor/src/wdcomp.c:634-746 | every event keeps picture and canvas in step outside what is pending, whatever is drawn and damaged, a commit of another size only having to leave nothing of the new canvas unsent and not pending |
| FrameResults.PictureIsCanvas | compositor/src/wdcomp.c:634-746 | so in every run: the picture, once the pipe is shown, is the kept canvas outside the pending rectangle, all of it with nothing pending, and all of it after one acknowledgement |
| FrameResults.ResizingIsEnough | compositor/src/wdcomp.c:656-694 | for which it is enough that a client damages its whole window when it changes size |
| FrameResults.StepGood | compositor/src/wdcomp.c:634-746 | for honest clients every event also keeps the canvas a copy of the window |
| FrameResults.PictureIsWindow | compositor/src/wdcomp.c:634-746 | so in every run of honest commits the picture is the client's window outside the pending rectangle, and wholly so with nothing pending |
| FrameResults.AckDelivers | compositor/src/wdcomp.c:742-746 | and one acknowledgement brings it there |
| FrameResults.StepPaced | compositor/src/wdcomp.c:620-746 | pacing is kept by every event, whatever the client commits |
| FrameResults.FramesSeparated | compositor/src/wdcomp.c:672-746 | between two frames of a surface there is an acknowledgement, a 30 s give-up or a resynchronisation |
| FrameResults.HeldDamageLeaves | compositor/src/wdcomp.c:672-746 | in every run something pending is behind a frame that is out and will be sent by the next acknowledgement; an unsent size is pending whole |
| FrameExact.DrawnExactly | compositor/src/wdcomp.c:540-564 | a commit draws the smallest rectangle around the damage the window shows; the whole of it only for want of damage, too much of it, or a new size |
| FrameExact.DamageKept | compositor/src/wdcomp.c:891-900 | the first 32 areas are kept as they were said, empty ones apart, and only more overflow |
| FrameExact.CommitExactly | compositor/src/wdcomp.c:652-699 | what a commit draws, that it leaves at once with no frame out, and is otherwise pending in the smallest rectangle around that and what was |
| FrameExact.AckAfter | compositor/src/wdcomp.c:742-746 | an acknowledgement sends what was held, in one frame of exactly that rectangle, or nothing |
| FrameExact.TickAfterFrame | compositor/src/wdcomp.c:3809-3819 | in every run, a tick after a frame: nothing before 2000 ms; then the client is let go on; from 30000 ms on the frame is given up and what was held leaves |
| FrameExact.LateTickDelivers | compositor/src/wdcomp.c:3801-3819 | so held damage leaves without any acknowledgement: by such a tick the picture is the canvas, with nothing pending |
| FrameExact.SentAt | compositor/src/wdcomp.c:620-625 | the clock of a surface is that of its last frame |
| FrameExact.HiddenIsGone | compositor/src/wdcomp.c:1419-1442 | a hidden window is gone from the page |
| FrameExact.ResyncSends | compositor/src/wdcomp.c:3591-3619 | a page that asks is sent the whole canvas, frame out or not |
| FrameExact.NothingCommitted | compositor/src/wdcomp.c:1048-1049 | a commit without a buffer settles the damage |
| SurfaceObject.WdcSurface.AddDamage | compositor/src/wdcomp.c:891-900 | empty rectangles are ignored and the array is never overrun: what does not fit is an overflow |
| SurfaceObject.WdcSurface.DamageBounds | compositor/src/wdcomp.c:540-564 | the min/max loop over the damage array is the hull, with its fallbacks |
| SurfaceObject.WdcSurface.FitCanvas | compositor/src/wdcomp.c:636-641 | another size is a clear canvas; the same size is the same pixels |
| SurfaceObject.WdcSurface.DrawRows | compositor/src/wdcomp.c:643-648 | copying row by row into the row-major buffer is drawing the rectangle, and touches nothing else |
| SurfaceObject.WdcSurface.CanvasUpdate | compositor/src/wdcomp.c:634-649 | the two together |
| SurfaceObject.WdcSurface.CopyOut | compositor/src/wdcomp.c:715-723 | the rows copied out of the canvas are the rectangle of it |
| SurfaceObject.WdcSurface.Convert | compositor/src/wdcomp.c:660-667 | the rectangle taken from the client's buffer |
| SurfaceObject.WdcSurface.SendFrame | compositor/src/wdcomp.c:597-631 | the frame names its rectangle and the full size, and marks the surface as out and awaiting |
| SurfaceObject.WdcSurface.EmitCanvasRect | compositor/src/wdcomp.c:707-727 | clamped to the canvas, nothing sent when that leaves nothing |
| SurfaceObject.WdcSurface.EmitFrameIpc | compositor/src/wdcomp.c:652-699 | a commit lands, then is sent or held |
| SurfaceObject.WdcSurface.Hold | compositor/src/wdcomp.c:679-691 | held damage is united with what was pending |
| SurfaceObject.WdcSurface.Acknowledged | compositor/src/wdcomp.c:742-746 | releases the client and sends what was pending |
| SurfaceObject.WdcSurface.CheckStale | compositor/src/wdcomp.c:3809-3819 | gives a frame up after 30 s; lets the client draw after 2 s |
| SurfaceObject.WdcSurface.Hide | compositor/src/wdcomp.c:1419-1442 | a hidden window has no canvas, no size sent and nothing pending |
| SurfaceObject.WdcSurface.Resync | compositor/src/wdcomp.c:3591-3619 | announced surfaces are drawn whole from the canvas |
| SurfaceObject.WdcSurface.ReleaseFrames | compositor/src/wdcomp.c:941-950 | the client may draw again |
| Subsurface.UnlinkKeeps | compositor/src/wdcomp.c:3011-3017 | taking a child off the list, with the depth corrected, takes it out of the one stack |
| Subsurface.RelinkKeeps | compositor/src/wdcomp.c:3039-3058 | putting it back beside the parent or a sibling puts it directly above or below that one in the stack |
| Subsurface.RestackIsMove | compositor/src/wdcomp.c:3024-3059 | `place_above` and `place_below` are one move in one sequence; a stranger is refused and changes nothing; the depth stays within the children |
| Subsurface.MovedBeside | compositor/src/wdcomp.c:3024-3059 | afterwards the child is next to its mark on the side asked, and all others keep their order |
| Subsurface.ZIsDistance | compositor/src/wdcomp.c:2971-2975 | the number announced is the distance from the parent in the stack, and never 0 |
| Subsurface.ZRises | compositor/src/wdcomp.c:2971-2975 | the numbers rise along the list by one, by two over the parent's own place |
| Subsurface.PlacementsRise | compositor/src/wdcomp.c:3060-3064 | what the shell is told after a move rises strictly, and is of children it has heard of |
| Subsurface.PlacementsAll | compositor/src/wdcomp.c:3060-3064 | and of every child it has heard of |
| Subsurface.Parent.AnnounceChild | compositor/src/wdcomp.c:3005-3009 | the first word of a child is its placement, once |
| Subsurface.Parent.IndexOfChild | compositor/src/wdcomp.c:2959-2967 | the loop finds the place of a child, or -1 |
| Subsurface.Parent.PlacementZ | compositor/src/wdcomp.c:2971-2975 | computes that number |
| Subsurface.Parent.Add | compositor/src/wdcomp.c:3171-3172 | a new child is on top of the stack |
| Subsurface.Parent.Unlink | compositor/src/wdcomp.c:3011-3017 | removes a child in place |
| Subsurface.Parent.Restack | compositor/src/wdcomp.c:3024-3065 | the whole request on the list in place: error, no effect, or the move and the new places of the children announced |
| Popup.PopupPlace | compositor/src/wdcomp.c:1690-1726 | the two-dimensional code places each axis on its own: fitting as asked, else flipped if allowed and fitting, else slid inside |
| Popup.PlaceWith | compositor/src/wdcomp.c:1680-1687 | anchor point, gravity and offset added, axis by axis |
| Popup.AnchorPoint | compositor/src/wdcomp.c:1609-1632 | the point the anchor names, division truncating |
| Popup.GravityOffset | compositor/src/wdcomp.c:1635-1651 | where the popup extends, division truncating |
| Popup.AskedExactly | compositor/src/wdcomp.c:1609-1687 | by the numbers of the protocol: which end or middle of the anchor rectangle a popup hangs on, to which side of it it extends, and the same flipped |
| Popup.SizeExactly | compositor/src/wdcomp.c:1690-1697 | at least one and at most the size of the parent |
| Popup.FlipsAreInvolutions | compositor/src/wdcomp.c:1653-1678 | each flip undoes itself, they commute, and each turns only its own axis round |
| Popup.PlacedInside | compositor/src/wdcomp.c:1690-1726 | a popup lies inside its parent exactly when the parent has no negative side; its size is the asked one, at least 1, cut to the parent |
| Popup.FitsOrFlips | compositor/src/wdcomp.c:1698-1726 | a fitting placement is not moved; an allowed fitting flip is taken; else it is moved inside, no further than any place inside would |
| Popup.SlidIsNearest | compositor/src/wdcomp.c:1721-1724 | sliding moves no further than any place inside would |
| Popup.FlipMirrors | compositor/src/wdcomp.c:1698-1714 | the flipped position is the mirror image about the anchor rectangle, up to the halves rounding drops; exactly so when anchor and gravity are directional |
| DBusSignature.TypeBalanced | server/src/dbus.ts:43-58 | a well-formed type closes every bracket it opens, at any depth |
| DBusSignature.TypeComplete | server/src/dbus.ts:43-58 | the complete type found at the front of a signature is the type printed there |
| DBusSignature.SplitJoined | server/src/dbus.ts:60-68 | splitting the joined signatures of any well-formed types gives back exactly those |
| DBusSignature.CompleteTypeAt | server/src/dbus.ts:43-58 | the recursive and looping scan, with its errors, is that function; it ends |
| DBusSignature.BracketAt | server/src/dbus.ts:46-54 | the depth-counting loop finds the matching bracket, or the end |
| DBusSignature.SplitTypes | server/src/dbus.ts:60-68 | the splitting loop, with its errors, ends |
| DBusSignature.UnknownRefused | server/src/dbus.ts:43-58 | a code that no type has is refused |
| DBusRoundTrip.ReadBack | server/src/dbus.ts:100-317 | reading what was marshalled, of any well-formed type, at any position, in either byte order, with anything around it, gives the value and consumes exactly its bytes |
| DBusRoundTrip.ScalarBack | server/src/dbus.ts:103-141 | for numbers of every width and sign, bytes, booleans and doubles |
| DBusRoundTrip.VariantBack | server/src/dbus.ts:161-166 | for variants |
| DBusRoundTrip.ArrayBack | server/src/dbus.ts:167-193 | for arrays, padding before the first element not counted in the length |
| DBusRoundTrip.StructBack | server/src/dbus.ts:194-200 | for structs |
| DBusRoundTrip.MapBack | server/src/dbus.ts:181-188 | for dictionaries, entries in order |
| DBusFormat.WireIs | server/src/dbus.ts:100-200 | what is written for a value of any well-formed type, at any position, in either byte order, is what the wire format of the D-Bus Specification has for it, byte by byte, and nothing else is |
| DBusFormat.AnyBool | server/src/dbus.ts:231-232 | any number but 0 is read as true |
| DBusFormat.SetExactly | server/src/dbus.ts:295-303 | a key read again keeps its place and takes the later value |
| DBusWriter.Writer.Need | server/src/dbus.ts:74-81 | growing the buffer keeps what was written |
| DBusWriter.Writer.Align | server/src/dbus.ts:83-87 | alignment adds zero bytes up to the boundary |
| DBusWriter.Writer.WriteText | server/src/dbus.ts:142-160 | strings and signatures with their length and end mark |
| DBusWriter.Writer.Patch | server/src/dbus.ts:191-192 | writing a length in afterwards changes those four bytes alone |
| DBusWriter.Writer.OpenArray | server/src/dbus.ts:168-175 | leaves room for the length and aligns for the element even when there is none |
| DBusWriter.Writer.CloseArray | server/src/dbus.ts:189-193 | the length patched in is that of the bytes after the padding |
| DBusWriter.Writer.Write | server/src/dbus.ts:100-204 | what the writer appends, across growth and patching, is the value's marshalling at that position |
| DBusWriter.Writer.WriteArray | server/src/dbus.ts:167-193 | likewise for arrays |
| DBusWriter.Writer.WriteMap | server/src/dbus.ts:181-193 | likewise for dictionaries |
| DBusReader.Reader.Read | server/src/dbus.ts:226-316 | the cursor over the buffer reads what the function reads, and stops where it stops |
| DBusReader.Reader.ReadArray | server/src/dbus.ts:285-308 | likewise the array loop, byte arrays and dictionaries included |
| DBusReader.Reader.ReadMap | server/src/dbus.ts:295-304 | likewise the dictionary loop; a repeated key replaces the value |
| DBusReader.Reader.ReadText | server/src/dbus.ts:268-280 | likewise strings and signatures |
| DBusMessage.DecodeEncode | server/src/dbus.ts:355-422 | decoding an encoded message, with anything behind it, gives the message and its length |
| DBusMessage.DecodePrefix | server/src/dbus.ts:385-392 | a strict prefix of an encoded message yields nothing |
| DBusMessage.EncodedLengths | server/src/dbus.ts:372-391 | the lengths in the first sixteen bytes are those of the message |
| DBusMessage.HeaderTyped | server/src/dbus.ts:362-376 | the header fields have the type the header is written with |
| DBusMessage.FieldsTaken | server/src/dbus.ts:362-416 | reading the header fields back restores every field that was set, and no other |
| DBusMessageFormat.EncodeSays | server/src/dbus.ts:355-382 | an encoded message is one of the D-Bus Specification: byte order, type, flags, version 1, lengths, serial, fields, padding and body, each in its place |
| DBusMessageFormat.FieldsInOrder | server/src/dbus.ts:362-376 | its fields are path, interface, member, error name, reply serial, destination, sender and signature under 1 to 8, those that are set, in that order |
| DBusMessageFormat.DecodeSays | server/src/dbus.ts:385-422 | any such message, whoever wrote it, in either byte order, its fields in any order, with anything behind it, is read for what it says |
| DBusMessageFormat.TakenMeans | server/src/dbus.ts:396-416 | each field by its code, the last of them counting |
| DBusCodec.EncodeMessage | server/src/dbus.ts:355-382 | the two writers put out the encoded message |
| DBusCodec.DecodeMessage | server/src/dbus.ts:385-422 | the readers read the decoded message, or find it incomplete |
| DBusCodec.Connection.Feed | server/src/dbus.ts:523-538 | every complete message in the buffer is dispatched, in order, and what is left is incomplete or cannot be read |
| DBusCodec.TakesSent | server/src/dbus.ts:523-538 | whatever prefix of a stream of messages has come, exactly the whole messages in it are dispatched and the rest is kept |
| DBusCodec.ChunkTaken | server/src/dbus.ts:523-538 | and so after a further chunk |
| DBusCodec.StreamTaken | server/src/dbus.ts:523-538 | for any list of chunks: exactly the whole messages of the stream so far have been dispatched, in order, and the beginning of the next is kept |
| BusProxy.LengthsAgree | server/src/busproxy.ts:46-53 | the proxy's frame length is the decoder's exactly when the field array plus 23 is below 2^31, where the 32-bit mask stops working |
| BusProxy.CompleteAlike | server/src/busproxy.ts:46-53 | within that bound a frame is complete when the decoder says so, and as long |
| BusProxy.EncodedKnown | server/src/busproxy.ts:46-53 | an encoded message of a length D-Bus allows is one frame to the proxy, whatever follows, and no beginning of it is any |
| BusProxy.TakenKnown | server/src/busproxy.ts:46-53 | so is every frame it ever takes |
| BusProxy.DivertedExactly | server/src/busproxy.ts:355-361 | in the words of the calls: exactly those to the portal, by its name or its owner's, that ask the chooser, or for its properties, or close a request that is open |
| BusProxy.PassedExactly | server/src/busproxy.ts:313-331 | what goes up is every other frame, in order |
| BusProxy.AnsweredExactly | server/src/portal.ts:197-204 | the requests open afterwards are all but the one that its own connection closes |
| BusProxy.NamedByFirst | server/src/busproxy.ts:341-347 | a connection is called what the first answer to its Hello says |
| BusProxy.Client.FromClient | server/src/busproxy.ts:313-331 | one chunk: every whole frame goes up unchanged, but for calls answered here; within the chunk the portal changes only by a request closed by the connection that opened it; the serial of its Hello is kept |
| BusProxy.Client.FromBus | server/src/busproxy.ts:333-349 | one chunk: every whole frame goes down unchanged, and the connection takes its name from the answer to its Hello |
| BusProxy.Proxy.Inject | server/src/busproxy.ts:365-368 | an answer has the next serial of ours; whatever follows it, a decoder reads exactly that message from it; a connection that has gone is sent nothing |
| PortalRequests.RequestsAreTheirPaths | server/src/portal.ts:224-229 | a path can be a request exactly when it is the prefix, a part a connection's name can come to, and a token behind a slash |
| PortalRequests.OpenedReachable | server/src/portal.ts:258-318 | a request opened, and any that end, leave every request at a path of the connection that opened it |
| PortalRequests.PathSpelt | server/src/portal.ts:226-229 | a request's path, letter for letter |
| PortalRequests.TokenSpelt | server/src/portal.ts:227-228 | the token is the string under its key in the third argument |
| PortalRequests.DialogSpelt | server/src/portal.ts:215-220 | which calls ask for a dialog |
| BusRuns.ClientFramesPass | server/src/busproxy.ts:313-331 | for any chunks, and any changes of the portal between them, each frame of the stream is looked at once, whole and in order, and goes up unless diverted by the portal in force when it was complete |
| BusRuns.GoesUpExactly | server/src/busproxy.ts:313-361 | so in every run: each frame of the stream but the calls the portal in force answers |
| BusRuns.CutsDoNotMatter | server/src/busproxy.ts:313-361 | with the owner of the portal's name unchanged, every run over a stream sends the same frames up if and only if no frame of it is a close, addressed to the portal, at a path that a request of some connection can have; the portals in between hold any requests there can be |
| BusRuns.CloseDepends | server/src/busproxy.ts:355-361 | where one is, two runs over the same bytes differ: a request a connection can have is open there in one of them |
| BusRuns.OpenThenClose | server/src/portal.ts:224-260 | a dialog asked for with a token of its own, and closed at the path that follows from the name of the sender and that token: the close goes to the bus in one chunk, and is answered here in two |
| BusRuns.BusFramesPass | server/src/busproxy.ts:333-368 | for any chunks of the bus and any answers in between, the application is sent the frames of the stream in order and the answers in order, each whole |
| BusRuns.BusBytesPass | server/src/busproxy.ts:333-349 | in every run all bytes of the bus have been passed on but the beginning of a frame, and no answer is among them |
| BusRuns.AnswersFallBetween | server/src/busproxy.ts:333-368 | an application taking frames off what it is sent, however that arrives, takes each frame of the bus and each answer by itself |
| Framing.PeelKeepsBytes | compositor/src/ipc.c:131-146 | frames taken and bytes left are the bytes there were |
| Framing.PeelIsDone | compositor/src/ipc.c:131-146 | what is left holds no further frame |
| Framing.PeelInTwo | compositor/src/ipc.c:119-148 | taking frames of two chunks one after the other is taking them of both together |
| Framing.ChunksDoNotMatter | compositor/src/ipc.c:119-148 | so for any number of chunks |
| Ipc.IpcStable | compositor/src/ipc.c:131-141 | more bytes never change what was decided about the first ones |
| Ipc.Sender.WriteAll | compositor/src/ipc.c:60-82 | whatever short writes, interruptions and waits occur, all bytes are written in order, or a strict prefix and then failure |
| Ipc.GoesExactly | compositor/src/ipc.c:60-82 | all is written exactly when the kernel takes enough before it fails; being interrupted or told to wait is no failure |
| Ipc.EncodeExactly | compositor/src/ipc.c:90-97 | length, type and payload, byte by byte |
| Ipc.FrontExactly | compositor/src/ipc.c:131-136 | no message is empty or longer than 64 MiB |
| Ipc.Sender.Send | compositor/src/ipc.c:90-106 | a message is sent whole; a failure breaks the channel for good |
| Ipc.Receiver.EnsureCapacity | compositor/src/ipc.c:108-117 | the buffer grows by doubling and keeps what it holds |
| Ipc.Receiver.ReadSome | compositor/src/ipc.c:119-148 | a short read: every complete message is dispatched in order and the buffer holds the rest |
| Ipc.Receiver.Dispatch | compositor/src/ipc.c:131-147 | the loop over offsets, with its two refusals |
| Ipc.Receiver.MoveDown | compositor/src/ipc.c:143-146 | the unconsumed suffix is moved to the front |
| Ipc.ChannelReader.OnData | server/src/services/wayland.ts:1322-1339 | the server's loop over a sliced buffer dispatches the same frames |
| Ipc.MessagesArrive | compositor/src/ipc.c:60-148 | however the bytes are cut, the messages dispatched are exactly those sent whole, and the buffer holds the part of the last one |
| Ring.Ring.Push | server/src/services/pty.ts:82-99 | growing, making room and writing round the end leave the last bytes of what was held and pushed |
| Ring.Ring.Grow | server/src/services/pty.ts:128-133 | a larger buffer holds the same bytes |
| Ring.Ring.Write | server/src/services/pty.ts:94-97 | the two copies write round the end |
| Ring.Ring.Contents | server/src/services/pty.ts:120-126 | the bytes held, straightened out |
| Ring.Ring.Since | server/src/services/pty.ts:101-105 | what lies after an offset, or nothing |
| Ring.Ring.All | server/src/services/pty.ts:112-118 | everything from a line boundary |
| Ring.LastBytesHeld | server/src/services/pty.ts:68-99 | after any pushes of any sizes the ring holds exactly the last `limit` bytes of the stream |
| Ring.OffsetsAreTheStreams | server/src/services/pty.ts:82-99 | offsets are the stream's exactly when no push was larger than the limit |
| Ring.SinceLags | server/src/services/pty.ts:82-105 | for pushes of any size: what is asked for by offset is that part of the stream, the offset lagging by exactly the bytes oversized pushes were cut by |
| Ring.SinceIsTheStream | server/src/services/pty.ts:101-105 | no push being oversized, what is asked for by offset is that part of the stream, refused exactly when its first byte is gone |
| Ring.AllIsTheStream | server/src/services/pty.ts:112-118 | no push being oversized, everything is the stream from the offset named: 0, or just after the first newline held, or the oldest byte |
| Ring.AllLags | server/src/services/pty.ts:82-118 | for pushes of any size: everything handed out is the end of the stream, at a lagging offset, cut at a line unless the oldest byte held has offset 0 |
| Ring.OversizedFirst | server/src/services/pty.ts:82-118 | as it has after a first push larger than the ring: no line boundary is looked for though bytes are gone |
| Ring.CatchingUp | server/src/services/pty.ts:101-118 | no push being oversized, everything once, and what followed since, join to the stream without gap or overlap |
| Terminal.OwnerIsWindow | server/src/services/pty.ts:360-376 | a shell has an owner exactly while a window draws it, no timer runs then, and it is hung up at most once |
| Terminal.HungUpExactly | server/src/services/pty.ts:441-471 | which events hang a shell up, in both directions |
| Terminal.HungUpBecause | server/src/services/pty.ts:441-471 | in every run it was its own window closing, or its loss with no grace and no keep, or a timer its loss started with no window since |
| Terminal.TimerSince | server/src/services/pty.ts:449-456 | a running timer was started by the loss of the window that held the shell, and none has come since |
| Terminal.TimerExactly | server/src/services/pty.ts:441-471 | the timer starts exactly when the window that held a living shell is lost, with a finite grace and no wish to be kept, and stops with a window, its end, or the shell's |
| Terminal.LivesExactly | server/src/services/pty.ts:323-471 | a shell lives through everything but its own end and being hung up; who holds it, and whether it is kept, changes only so |
| Terminal.DisplacedHarmless | server/src/services/pty.ts:360-376 | a newer window never hangs the shell up, and the close of the displaced one changes nothing |
| Terminal.WaitsAlone | server/src/services/pty.ts:449-457 | alone without a timer a shell lives until it exits |
| Terminal.WindowsSeeTheStream | server/src/services/pty.ts:323-411 | the bytes given to a window are one unbroken stretch of the output, for the current one up to its end |
| Terminal.ComesBack | server/src/services/pty.ts:377-411 | a window that comes back gets exactly what it missed if that is still held, else all that is, from the offset it is told |
| Shell.Shell.Attach | server/src/services/pty.ts:360-411 | displaces, stops the timer, and replays |
| Shell.Shell.OnClose | server/src/services/pty.ts:441-460 | waits, starts the timer, or hangs up |
| Shell.Shell.HangUp | server/src/services/pty.ts:464-471 | once |
| Shell.Shell.Output | server/src/services/pty.ts:323-327 | output is banked and passed on to the window there is |
| TreeWalk.WalkIsSum | server/src/services/fs.ts:224-282 | whatever the order in which calls finish, an uncancelled walk resolves after exactly as many calls as the tree needs, with at most sixteen directories active, every path counted once, totals the plain recursive sum, errors included |
| TreeWalk.WalkEnds | server/src/services/fs.ts:224-282 | cancelled at any moments or not, something is in flight exactly until it resolves, no schedule outlasts the tree, and nothing is counted twice or from outside |
| TreeWalk.SchedulesAgree | server/src/services/fs.ts:224-282 | two schedules of one tree end with the same totals |
| TreeWalk.ResumeKeeps | server/src/services/fs.ts:254-279 | a call that finishes adds its share and queues or leaves exactly the rest of its directory |
| TreeWalk.FinishedKeeps | server/src/services/fs.ts:234-252 | done and still to do stay the whole, through the pump and the end of a directory |
| TreeWalk.SumIsVisits | server/src/services/fs.ts:254-279 | the sum is that of every path of the tree, taken once: 512 bytes a block, one entry each, one error for each that failed |
| TreeWalk.FilledExactly | server/src/services/fs.ts:239-248 | directories are started from the end of the queue, up to sixteen in flight |
| TreeWalk.RoomIsUsed | server/src/services/fs.ts:243-248 | a directory through, either sixteen are in flight or none is left to start |
| TreeWalk.CancelledStartsNone | server/src/services/fs.ts:234-238 | a cancelled walk starts no further directory |
| TreeWalk.Walker.Pump | server/src/services/fs.ts:234-252 | the loop starts directories from the end of the queue up to the bound; a cancelled walk empties it |
| TreeWalk.Walker.Finish | server/src/services/fs.ts:254-279 | one worker from one awaited call to the next |
| TreeWalk.Walker.Continue | server/src/services/fs.ts:265-278 | the loop over a listing queues directories up to the next awaited entry |
| TreeWalk.Walker.Settle | server/src/services/fs.ts:243-247 | what follows a directory, however it ended |
| Latin1.Latin1ToUtf8 | compositor/src/xwm.c:277-294 | the loop is the encoding, within the space allocated |
| Latin1.Utf8ToLatin1 | compositor/src/xwm.c:296-311 | the loop is the decoding, text cut in the middle of a character included, within the space allocated |
| Latin1.CodePoint | compositor/src/xwm.c:300-305 | the inner loop collects as many continuation bytes as there are |
| Latin1.Latin1Back | compositor/src/xwm.c:277-311 | `utf8_to_latin1` inverts `latin1_to_utf8` on all bytes |
| Latin1.Utf8Back | compositor/src/xwm.c:277-311 | the other way round exactly for UTF-8 of characters Latin-1 has |
| Latin1.EncodedExactly | compositor/src/xwm.c:277-294 | each byte of Latin-1 becomes the UTF-8 of its number |
| Latin1.CharNarrowed | compositor/src/xwm.c:296-311 | each character of UTF-8, of one to four bytes, becomes its own number, or one question mark if Latin-1 does not have it |
| Latin1.StrayTakesNext | compositor/src/xwm.c:296-311 | a byte that follows nothing takes the next with it |
| Incr.StepGood | compositor/src/xwm.c:423-510 | every paste, deletion and copy keeps each requestor in step with its transfer |
| Incr.AnswerExactly | compositor/src/xwm.c:449-510 | who is refused, who gets the text whole and who a transfer; as it is, or in Latin-1 for STRING |
| Incr.TextDelivered | compositor/src/xwm.c:423-510 | in every run a requestor has read the beginning of the text there was when it asked, finds at most 256 KiB at once, and has all of it at the end |
| Incr.ReadsDeliver | compositor/src/xwm.c:432-440 | one that goes on reading is through after exactly as many reads as there are pieces, the empty one included |
| Incr.Undisturbed | compositor/src/xwm.c:489-510 | nothing else, a new clipboard text included, touches a transfer |
| Incr.CutShort | compositor/src/xwm.c:489-496 | a transfer ends early exactly when another long paste comes ten seconds or more after it began |
| Incr.ReaderCutOff | compositor/src/xwm.c:489-510 | a requestor that has read all it was offered is so cut off, with the first piece of its text |
| Incr.StrandedForGood | compositor/src/xwm.c:423-510 | and from there nothing but asking again leads on |
| Incr.WritesPieces | compositor/src/xwm.c:432-440 | what is written next is the next piece, or the empty one |
| Incr.PiecesAreData | compositor/src/xwm.c:432-440 | the pieces are non-empty, at most 256 KiB, and concatenate to the text |
| Incr.PullDelivers | compositor/src/xwm.c:319-403 | however an owner cuts its text, the first 1 MiB becomes the clipboard, converted if it was Latin-1; an empty text changes nothing |
| Incr.Superseded | compositor/src/xwm.c:994-1006 | text set meanwhile stays, whatever the owner still writes |
| Incr.NoText | compositor/src/xwm.c:556-570 | an owner without UTF-8 is asked once more, for Latin-1; without text the clipboard stays |
| Incr.PushedPulled | compositor/src/xwm.c:319-510 | text pushed by one such clipboard and pulled by another arrives, up to 1 MiB |
| XClipboard.Clipboard.Answer | compositor/src/xwm.c:449-510 | refusals, whole texts, and the start of a transfer, with its copy of the text |
| XClipboard.Clipboard.PushPiece | compositor/src/xwm.c:432-440 | the next piece, and the end after the empty one |
| XClipboard.Clipboard.PropertyDeleted | compositor/src/xwm.c:751-755 | the requestor's deletion asks for a piece of its own transfer only |
| XClipboard.Clipboard.PullStart | compositor/src/xwm.c:341-352 | an earlier selection is dropped |
| XClipboard.Clipboard.PullRead | compositor/src/xwm.c:359-403 | one property read, into a growing buffer, up to the limit |
| XClipboard.Clipboard.Append | compositor/src/xwm.c:383-398 | the buffer is reallocated by doubling and keeps what it holds |
| XClipboard.Clipboard.PullEnd | compositor/src/xwm.c:319-339 | the text becomes the clipboard, or is dropped |
| XClipboard.Clipboard.SetClipboard | compositor/src/xwm.c:994-1006 | newer text ends a selection on its way in |

## Left out

- Session.Session.SendBinary: a payload is a sequence of bytes; that the source keeps a view of the caller's buffer, which must not change while it waits, is not modelled.
- Session.Session.Dispose: closes the channels in any order, where the source goes by insertion; none of the results depends on it.
- Rpc.RpcClient.OnMessage: of the JSON messages only `close` is modelled; requests, `opened`, data and events carry no slices.
- BusProxy.Client.FromClient: a stream whose header is too long for the mask is called lost and left in the buffer; the source goes on with a length that means nothing. The answers the portal gives before it has to wait (server/src/portal.ts:170-219), to a close, a question for its properties or an unknown method, are written to the application in the same turn in the source; here each is an event of its own behind it, `BusRuns.Answers`, and `BusRuns.BusFramesPass` holds wherever those fall.
- BusProxy.Proxy.Inject: what is answered, and how the connection is found by name, is left to the caller.
- DBusReader.Reader.Read: a read past the end of the buffer has no result, where the source throws, clamps or, for a string, returns less; an array of elements of no size, over which the source would not end, has none either.
- DBusReader.Reader.ReadArray: likewise for reads past the end and elements of no size.
- DBusReader.Reader.ReadMap: an entry of more or fewer than two types has no result, where the source takes the first two.
- DBusReader.Reader.ReadText: a text cut off by the end of the buffer has no result, where the source returns what there is.
- DBusCodec.DecodeMessage: malformed where the source would go on with what it could clamp; header fields of a type other than their own are passed over.
- DBusWriter.Writer.Write: asks for a value of the signature's type, as the callers hand in; what the source does with a value of another type is JavaScript's conversion.
- DBusMessage.DecodeEncode: header fields of a type other than the one the specification gives them are not among the messages encoded.
- Ipc.Sender.WriteAll: the kernel's answers are a finite list and the write fails when it runs out; the source would wait.
- SurfaceObject.WdcSurface.SendFrame: compression, the scale byte and a broken channel are left out; a frame is its rectangle of pixels.
- SurfaceObject.WdcSurface.Resync: one surface; the order in which several are announced and drawn is left out.
- SurfaceObject.WdcSurface.ReleaseFrames: the frame callbacks themselves, which are answered and destroyed, are left out; what remains is that none is awaited.
- Terminal.WindowsSeeTheStream: the replay is handed over when the window attaches, where the source waits for the next turn of its loop.
- TreeWalk.Walker.Pump: `active` counts suspended workers, which are kept in a list; which of them goes on next is the schedule.
- XClipboard.Clipboard.PullEnd: the callback that tells the compositor is the change of the clipboard itself.
- The stored state of a synchronized subsurface commit.
- Pixel formats, shared memory and deflate.
- Timers as real time: a grace, a give-up and a heartbeat are events.
- The heartbeat of a session and reconnecting of the page.
- Messages of the compositor other than frames, hiding, acknowledgement and resynchronisation; input, seats, outputs and configuration of windows.
- Window management, menus, settings and all other user interface.
- System, process, network, journal and desktop-entry services.
- Authentication, tokens and confinement of paths.
