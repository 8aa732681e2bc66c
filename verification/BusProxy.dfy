/**
 The proxy in front of the session bus, server/src/busproxy.ts: frames pass
 through both ways as they came, except a client's calls to the portal's file
 chooser, which are answered here; the answers are written between frames.
 */
module BusProxy {
  import opened Bytes
  import opened Framing
  import opened DBusSignature
  import opened DBusValues
  import opened DBusMessage
  import opened DBusCodec

  const METHOD_CALL := 1
  const METHOD_RETURN := 2
  const PORTAL_NAME := "org.freedesktop.portal.Desktop"
  const PORTAL_PATH := "/org/freedesktop/portal/desktop"
  const CHOOSER := "org.freedesktop.portal.FileChooser"
  const REQUEST := "org.freedesktop.portal.Request"
  const PROPERTIES := "org.freedesktop.DBus.Properties"
  const DBUS := "org.freedesktop.DBus"
  const TWO_31: nat := 0x8000_0000
  /** The most a D-Bus message may have. */
  const MESSAGE_MAX: nat := 0x800_0000
  /** Where the serials of our own messages begin. */
  const FIRST_SERIAL: nat := 0x4000_0000

  /* ---- Frame lengths ---- */

  /** A number as the bit operators of JavaScript see it. */
  function ToInt32(n: nat): int {
    (n + TWO_31) % TWO_32 - TWO_31
  }

  /** `y & ~7`, on 32 bits. */
  function ClearLow3(y: int): int {
    y - y % 8
  }

  function FieldsLength(buf: seq<byte>): nat
    requires |buf| >= 16
  {
    GetInt(buf[12..16], buf[0] == LITTLE)
  }

  function FrameTotal(buf: seq<byte>): int
    requires |buf| >= 16
  {
    ClearLow3(ToInt32(16 + FieldsLength(buf) + 7)) + GetInt(buf[4..8], buf[0] == LITTLE)
  }

  /** How far the frame at the front of `buf` reaches, or 0 for as long as that is not decided. */
  function FrameLength(buf: seq<byte>): int {
    if |buf| < 16 then 0
    else if |buf| >= FrameTotal(buf) then FrameTotal(buf) else 0
  }

  lemma {:induction false} FromLittleBound(b: seq<byte>)
    ensures FromLittle(b) < Power256(|b|)
  {
    if b != [] { FromLittleBound(b[1..]); }
  }

  lemma FieldsLengthBound(buf: seq<byte>)
    requires |buf| >= 16
    ensures FieldsLength(buf) < TWO_32
  {
    Powers();
    FromLittleBound(if buf[0] == LITTLE then buf[12..16] else Reverse(buf[12..16]));
  }

  /**
   The proxy and the decoder agree on how long a message is exactly while the
   header's length, rounded up, is a positive number of 32 bits.
   */
  lemma LengthsAgree(buf: seq<byte>)
    requires |buf| >= 16
    ensures FrameTotal(buf) == MessageLength(buf) <==> FieldsLength(buf) + 23 < TWO_31
  {
    hide ToInt32, ClearLow3, GetInt, Aligned;
    FieldsLengthBound(buf);
    var n := FieldsLength(buf) + 23;
    Masked(n);
    RoundedUp(16 + FieldsLength(buf));
  }

  /** Below 2^31 the mask changes nothing; from there on it turns a number negative. */
  lemma Masked(n: nat)
    requires n < TWO_32 + TWO_31
    ensures ToInt32(n) == if n < TWO_31 then n else n - TWO_32
    ensures n >= TWO_31 ==> ClearLow3(ToInt32(n)) < n - 7
  {
    if n < TWO_31 {
      assert (n + TWO_31) % TWO_32 == n + TWO_31;
    } else {
      assert n + TWO_31 == TWO_32 + (n - TWO_31);
    }
  }

  /** Clearing the low bits of seven more is rounding up to the next eight. */
  lemma RoundedUp(n: nat)
    ensures ClearLow3(n + 7) == Aligned(n, 8) && Aligned(n, 8) >= n
  {
  }

  /** So within those bounds a frame is complete when the decoder says so, and of the same length. */
  lemma CompleteAlike(buf: seq<byte>)
    requires |buf| >= 16 ==> FieldsLength(buf) + 23 < TWO_31
    ensures FrameLength(buf) == 0 <==> Decode(buf).Incomplete?
    ensures Decode(buf).Whole? ==> FrameLength(buf) == Decode(buf).length
  {
    hide Read, ReadFields, TakeAll, SplitSignature, Signature;
    if |buf| >= 16 { LengthsAgree(buf); }
  }

  /** The front of a buffer; where the mask has lost the length, no frame is claimed. */
  function ProxyFront(b: seq<byte>): Verdict {
    var n := FrameLength(b);
    if |b| >= 16 && FieldsLength(b) + 23 >= TWO_31 then Bad
    else if n <= 0 then Wait
    else Frame(n)
  }

  lemma ProxyStable()
    ensures Stable(ProxyFront)
  {
    hide GetInt;
    forall b, more ensures Settled(ProxyFront, b, more) {
      if |b| >= 16 {
        var c := b + more;
        assert c[0] == b[0] && c[4..8] == b[4..8] && c[12..16] == b[12..16];
        LengthsAgree(b);
      }
    }
  }

  lemma ProxyProgress(b: seq<byte>)
    ensures Progress(ProxyFront, b)
  {
  }

  /** A message of a length that D-Bus allows is a frame to the proxy, and no beginning of it is. */
  lemma EncodedKnown(m: Message, types: seq<Type>)
    requires Sendable(m, types) && |Encode(m)| <= 0x800_0000
    ensures Knows(ProxyFront, Encode(m))
  {
    hide FrameTotal, FieldsLength, Encode, MessageLength;
    var e := Encode(m);
    EncodedSize(m);
    forall more ensures ProxyFront(e + more) == Frame(|e|) {
      EncodedFront(m, e + more);
    }
    forall n | 0 <= n < |e| ensures ProxyFront(e[..n]) == Wait {
      if n >= 16 { EncodedFront(m, e[..n]); }
    }
  }

  lemma EncodedFront(m: Message, buf: seq<byte>)
    requires m.kind < 256 && m.flags < 256 && m.serial < TWO_32 && 16 <= |Encode(m)| <= MESSAGE_MAX
    requires |buf| >= 16 && buf[..16] == Encode(m)[..16]
    ensures FrameTotal(buf) == |Encode(m)| && FieldsLength(buf) + 23 < TWO_31
  {
    hide Encode;
    EncodedLengths(m, buf);
    LengthsAgree(buf);
  }

  /** Every frame the proxy takes it would take again, and not before the whole of it is there. */
  lemma TakenKnown(b: seq<byte>)
    requires ProxyFront(b).Frame?
    ensures ProxyFront(b).size <= |b| && Knows(ProxyFront, b[..ProxyFront(b).size])
  {
    hide GetInt;
    var n := ProxyFront(b).size;
    var e := b[..n];
    LengthsAgree(b);
    assert MessageLength(b) >= 16;
    forall more ensures ProxyFront(e + more) == Frame(n) { SameFront(b, e + more); }
    forall k | 0 <= k < n ensures ProxyFront(e[..k]) == Wait {
      if k >= 16 { SameFront(b, e[..k]); }
    }
  }

  lemma SameFront(a: seq<byte>, b: seq<byte>)
    requires |a| >= 16 && |b| >= 16 && a[..16] == b[..16]
    ensures FrameTotal(a) == FrameTotal(b) && FieldsLength(a) == FieldsLength(b)
  {
    assert a[0] == a[..16][0] && a[4..8] == a[..16][4..8] && a[12..16] == a[..16][12..16];
    assert b[0] == b[..16][0] && b[4..8] == b[..16][4..8] && b[12..16] == b[..16][12..16];
  }

  lemma {:induction false} FramesKnown(b: seq<byte>)
    ensures KnowsAll(ProxyFront, Peel(ProxyFront, b).frames)
    decreases |b|
  {
    hide ProxyFront;
    ProxyProgress(b);
    if ProxyFront(b).Frame? {
      TakenKnown(b);
      FramesKnown(b[ProxyFront(b).size..]);
    }
  }

  /* ---- What is intercepted ---- */

  /** What an interception depends on: the portal's owner, and the requests open, with who opened each. */
  datatype Portal = Portal(owner: Option<DBusMessage.Text>, requests: map<DBusMessage.Text, DBusMessage.Text>)

  predicate Is(t: Option<DBusMessage.Text>, s: string) {
    t.Some? && StringOf(t.value) == s
  }

  predicate ToPortal(m: Message, owner: Option<DBusMessage.Text>) {
    Is(m.destination, PORTAL_NAME) || (owner.Some? && owner.value != [] && m.destination == owner)
  }

  /** A call of the file chooser, or for its properties. */
  predicate ForChooser(m: Message) {
    && Is(m.path, PORTAL_PATH)
    && (|| Is(m.iface, CHOOSER)
        || (Is(m.iface, PROPERTIES) && m.body != [] && m.body[0].Text? && StringOf(m.body[0].text) == CHOOSER))
  }

  predicate ClosesRequest(m: Message) {
    Is(m.iface, REQUEST) && Is(m.member, "Close") && m.path.Some? && m.path.value != []
  }

  predicate Intercepts(m: Message, p: Portal) {
    ToPortal(m, p.owner) && (ForChooser(m) || (ClosesRequest(m) && m.path.value in p.requests))
  }

  /** The call a frame carries, if it can be read. */
  function CallIn(frame: seq<byte>): Option<Message> {
    var d := Decode(frame);
    if d.Whole? && d.message.kind == METHOD_CALL then Some(d.message) else None
  }

  predicate Diverted(frame: seq<byte>, p: Portal) {
    var m := CallIn(frame);
    m.Some? && Intercepts(m.value, p)
  }

  /**
   What answering a call changes before the next frame is looked at: the close
   of a request by the connection that opened it takes effect at once. A call
   of the chooser opens its request only after waiting, in a turn of its own.
   */
  function Answered(frame: seq<byte>, p: Portal, me: DBusMessage.Text): Portal {
    var m := CallIn(frame);
    if m.Some? && Intercepts(m.value, p) && !ForChooser(m.value) && p.requests[m.value.path.value] == me
    then p.(requests := p.requests - {m.value.path.value}) else p
  }

  /** A frame looked at, and the portal as it then was. */
  datatype Handled = Handled(frame: seq<byte>, portal: Portal)

  function Handle(frames: seq<seq<byte>>, p: Portal, me: DBusMessage.Text): (seq<Handled>, Portal)
    decreases |frames|
  {
    if frames == [] then ([], p)
    else
      var rest := Handle(frames[1..], Answered(frames[0], p, me), me);
      ([Handled(frames[0], p)] + rest.0, rest.1)
  }

  /** The frames that go on to the bus. */
  function Passed(hs: seq<Handled>): seq<seq<byte>> {
    if hs == [] then []
    else (if Diverted(hs[0].frame, hs[0].portal) then [] else [hs[0].frame]) + Passed(hs[1..])
  }

  lemma {:induction false} PassedSplit(a: seq<Handled>, b: seq<Handled>)
    ensures Passed(a + b) == Passed(a) + Passed(b)
  {
    hide Diverted;
    if a == [] {
      assert a + b == b;
    } else {
      assert (a + b)[1..] == a[1..] + b;
      PassedSplit(a[1..], b);
      Regroup(if Diverted(a[0].frame, a[0].portal) then [] else [a[0].frame], Passed(a[1..]), Passed(b));
    }
  }

  lemma PassedOne(h: Handled)
    ensures Passed([h]) == if Diverted(h.frame, h.portal) then [] else [h.frame]
  {
    assert [h][1..] == [];
  }

  lemma {:induction false} HandleSplit(a: seq<seq<byte>>, b: seq<seq<byte>>, p: Portal, me: DBusMessage.Text)
    ensures var first := Handle(a, p, me);
      var later := Handle(b, first.1, me);
      Handle(a + b, p, me) == (first.0 + later.0, later.1)
    decreases |a|
  {
    hide Answered;
    if a == [] {
      assert a + b == b;
      assert [] + Handle(b, p, me).0 == Handle(b, p, me).0;
    } else {
      assert (a + b)[1..] == a[1..] + b;
      var q := Answered(a[0], p, me);
      HandleSplit(a[1..], b, q, me);
      var first := Handle(a[1..], q, me);
      Regroup([Handled(a[0], p)], first.0, Handle(b, first.1, me).0);
    }
  }

  lemma HandleNone(p: Portal, me: DBusMessage.Text)
    ensures Handle([], p, me) == ([], p) && Passed([]) == []
  {
  }

  lemma HandleOne(done: seq<seq<byte>>, frame: seq<byte>, p: Portal, me: DBusMessage.Text)
    ensures var (hs, q) := Handle(done, p, me);
      && Handle(done + [frame], p, me) == (hs + [Handled(frame, q)], Answered(frame, q, me))
      && Passed(hs + [Handled(frame, q)]) == Passed(hs) + (if Diverted(frame, q) then [] else [frame])
  {
    hide Answered, Passed, Diverted;
    var (hs, q) := Handle(done, p, me);
    HandleSplit(done, [frame], p, me);
    assert [frame][1..] == [];
    assert [Handled(frame, q)] + [] == [Handled(frame, q)];
    PassedSplit(hs, [Handled(frame, q)]);
    PassedOne(Handled(frame, q));
  }

  /* ---- What is answered here, in the words of the calls ---- */

  /** A header field, absent ones empty. */
  function NameIn(t: Option<DBusMessage.Text>): string {
    if t.None? then "" else StringOf(t.value)
  }

  /** A call of the file chooser, or of its properties. */
  predicate AsksChooser(m: Message) {
    && NameIn(m.path) == "/org/freedesktop/portal/desktop"
    && (|| NameIn(m.iface) == "org.freedesktop.portal.FileChooser"
        || (&& NameIn(m.iface) == "org.freedesktop.DBus.Properties"
            && |m.body| > 0 && m.body[0].Text?
            && StringOf(m.body[0].text) == "org.freedesktop.portal.FileChooser"))
  }

  predicate Closes(m: Message, path: DBusMessage.Text) {
    && m.path == Some(path) && path != []
    && NameIn(m.iface) == "org.freedesktop.portal.Request" && NameIn(m.member) == "Close"
  }

  /** The portal, by its well-known name or by the one its owner has on the bus. */
  predicate AddressesPortal(m: Message, owner: Option<DBusMessage.Text>) {
    || NameIn(m.destination) == "org.freedesktop.portal.Desktop"
    || (owner.Some? && |owner.value| > 0 && m.destination == owner)
  }

  /** A frame that does not go up. */
  predicate AnsweredHere(frame: seq<byte>, p: Portal) {
    var d := Decode(frame);
    && d.Whole? && d.message.kind == 1
    && AddressesPortal(d.message, p.owner)
    && (AsksChooser(d.message) || exists path :: path in p.requests && Closes(d.message, path))
  }

  /** Exactly the calls that the portal has an answer for are taken out of the stream. */
  lemma DivertedExactly(frame: seq<byte>, p: Portal)
    ensures Diverted(frame, p) <==> AnsweredHere(frame, p)
  {
    hide Decode, StringOf;
  }

  /** The portal is another afterwards only if the frame closes a request that `me` had opened. */
  lemma AnsweredExactly(frame: seq<byte>, p: Portal, me: DBusMessage.Text)
    ensures var q := Answered(frame, p, me);
      && q.owner == p.owner
      && (forall path :: path in q.requests ==> path in p.requests && q.requests[path] == p.requests[path])
      && (forall path :: path in p.requests ==>
           (path !in q.requests <==>
              p.requests[path] == me && AnsweredHere(frame, p) && Closes(Decode(frame).message, path)))
  {
    DivertedExactly(frame, p);
    hide Decode, StringOf;
  }

  /** What goes up of some frames: each of them but those that are answered under the portal in force. */
  lemma PassedExactly(hs: seq<Handled>, i: nat)
    requires i < |hs|
    ensures Passed(hs[..0]) == []
    ensures var up := if AnsweredHere(hs[i].frame, hs[i].portal) then [] else [hs[i].frame];
      Passed(hs[..i + 1]) == Passed(hs[..i]) + up
  {
    hide Diverted, AnsweredHere;
    assert hs[..i + 1] == hs[..i] + [hs[i]];
    PassedSplit(hs[..i], [hs[i]]);
    PassedOne(hs[i]);
    DivertedExactly(hs[i].frame, hs[i].portal);
  }

  /** Who a frame is handled under: the portal as the frames before it have left it. */
  lemma {:induction false} HandledUnder(frames: seq<seq<byte>>, p: Portal, me: DBusMessage.Text, i: nat)
    requires i < |frames|
    ensures var (hs, q) := Handle(frames, p, me);
      && |hs| == |frames| && hs[i].frame == frames[i] && hs[0].portal == p
      && Answered(frames[i], hs[i].portal, me) == (if i + 1 < |frames| then hs[i + 1].portal else q)
    decreases |frames|
  {
    hide Answered;
    var q := Answered(frames[0], p, me);
    if |frames| > 1 {
      HandledUnder(frames[1..], q, me, if i == 0 then 0 else i - 1);
    } else {
      HandleNone(q, me);
    }
  }

  /* ---- The name of a connection ---- */

  /** The call a connection introduces itself to the bus with. */
  predicate SaysHello(m: Message) {
    m.kind == 1 && NameIn(m.destination) == "org.freedesktop.DBus" && NameIn(m.member) == "Hello"
  }

  /** The serial of the last of them among some frames. */
  function HelloIn(frames: seq<seq<byte>>, before: Option<nat>): Option<nat> {
    if frames == [] then before
    else
      var d := Decode(frames[|frames| - 1]);
      if d.Whole? && SaysHello(d.message) then Some(d.message.serial) else HelloIn(frames[..|frames| - 1], before)
  }

  /** The bus's answer to it, with the name it gives. */
  predicate NamesIt(m: Message, hello: Option<nat>) {
    m.kind == 2 && hello.Some? && m.replySerial == hello && |m.body| > 0 && m.body[0].Text?
  }

  /** The name a connection has after some frames of the bus: once it has one, it stays. */
  function NameAfter(frames: seq<seq<byte>>, before: Option<DBusMessage.Text>, hello: Option<nat>)
    : Option<DBusMessage.Text>
  {
    if frames == [] then before
    else
      var name, d := NameAfter(frames[..|frames| - 1], before, hello), Decode(frames[|frames| - 1]);
      if name.None? && d.Whole? && NamesIt(d.message, hello) then Some(d.message.body[0].text) else name
  }

  lemma NoHello(before: Option<nat>)
    ensures HelloIn([], before) == before
  {
  }

  lemma NextHello(frames: seq<seq<byte>>, frame: seq<byte>, before: Option<nat>)
    ensures HelloIn(frames + [frame], before) ==
      var d := Decode(frame);
      if d.Whole? && SaysHello(d.message) then Some(d.message.serial) else HelloIn(frames, before)
  {
    hide Decode, SaysHello;
    assert (frames + [frame])[..|frames|] == frames;
  }

  lemma NextName(frames: seq<seq<byte>>, frame: seq<byte>, before: Option<DBusMessage.Text>, hello: Option<nat>)
    ensures NameAfter(frames + [frame], before, hello) ==
      var name, d := NameAfter(frames, before, hello), Decode(frame);
      if name.None? && d.Whole? && NamesIt(d.message, hello) then Some(d.message.body[0].text) else name
  {
    hide Decode;
    assert (frames + [frame])[..|frames|] == frames;
  }

  /** What a connection is called after any frames: what the first answer to its introduction says. */
  lemma {:induction false} NamedByFirst(frames: seq<seq<byte>>, hello: Option<nat>)
    ensures var name := NameAfter(frames, None, hello);
      if name.Some? then
        exists i :: 0 <= i < |frames| && Decode(frames[i]).Whole? && NamesIt(Decode(frames[i]).message, hello)
          && name.value == Decode(frames[i]).message.body[0].text
          && forall j :: 0 <= j < i && Decode(frames[j]).Whole? ==> !NamesIt(Decode(frames[j]).message, hello)
      else forall j :: 0 <= j < |frames| && Decode(frames[j]).Whole? ==> !NamesIt(Decode(frames[j]).message, hello)
    decreases |frames|
  {
    hide Decode, NamesIt;
    if frames != [] {
      var before := frames[..|frames| - 1];
      NamedByFirst(before, hello);
      assert forall j :: 0 <= j < |before| ==> before[j] == frames[j];
    }
  }

  /* ---- The proxy, and one application's connection ---- */

  /** What is written to the application: a frame of the bus, or an answer of ours. */
  datatype Write = Relayed(frame: seq<byte>) | Injected(bytes: seq<byte>)

  function AllRelayed(frames: seq<seq<byte>>): seq<Write> {
    seq(|frames|, i requires 0 <= i < |frames| => Relayed(frames[i]))
  }

  /** What the connections of one proxy share. */
  class Proxy {
    var portal: Portal
    var serial: nat

    constructor ()
      ensures portal == Portal(None, map[]) && serial == 0x4000_0000
    {
      portal, serial := Portal(None, map[]), FIRST_SERIAL;
    }

    /**
     A message of our own, under the next serial of ours: whatever follows it,
     the application's decoder reads exactly that message and takes exactly
     its bytes. Nothing is written to a connection that has gone.
     */
    method Inject(client: Client, m: Message, ghost types: seq<Type>)
      requires Sendable(m.(serial := serial), types)
      modifies `serial, client`down
      ensures !client.open ==> client.down == old(client.down) && serial == old(serial)
      ensures client.open ==>
        && serial == old(serial) + 1
        && |client.down| == |old(client.down)| + 1 && client.down[..|old(client.down)|] == old(client.down)
        && var w := client.down[|old(client.down)|];
           && w.Injected?
           && forall rest :: Decode(w.bytes + rest) == Whole(m.(serial := old(serial)), |w.bytes|)
    {
      hide Encode, Decode;
      if !client.open { return; }
      var mine := m.(serial := serial);
      var bytes := EncodeMessage(mine, types);
      forall rest ensures Decode(bytes + rest) == Whole(mine, |bytes|) {
        DecodeEncode(mine, types, rest);
      }
      serial := serial + 1;
      client.down := client.down + [Injected(bytes)];
    }
  }

  class Client {
    const proxy: Proxy
    var open: bool
    var fromClient: seq<byte>
    var fromBus: seq<byte>
    var up: seq<seq<byte>>
    var down: seq<Write>
    var unique: Option<DBusMessage.Text>
    var helloSerial: Option<nat>

    constructor (proxy: Proxy)
      ensures this.proxy == proxy && open && fromClient == [] && fromBus == [] && up == [] && down == []
      ensures unique == None && helloSerial == None
    {
      this.proxy := proxy;
      open := true;
      fromClient, fromBus, up, down := [], [], [], [];
      unique, helloSerial := None, None;
    }

    /** Who this connection is to the portal. */
    function Me(): DBusMessage.Text
      reads this
    {
      if unique.Some? then unique.value else []
    }

    /** Every whole frame goes up as it is, in order, but for the calls answered here. */
    method FromClient(chunk: seq<byte>) returns (lost: bool)
      modifies this, proxy
      ensures var p := Peel(ProxyFront, old(fromClient) + chunk);
        var r := Handle(p.frames, old(proxy.portal), old(Me()));
        && fromClient == p.rest && lost == p.bad
        && up == old(up) + Passed(r.0)
        && proxy.portal == r.1
      ensures fromBus == old(fromBus) && down == old(down) && unique == old(unique) && open == old(open)
      ensures proxy.serial == old(proxy.serial)
      ensures helloSerial == HelloIn(Peel(ProxyFront, old(fromClient) + chunk).frames, old(helloSerial))
    {
      hide Peel, Handle, Passed, Diverted, Answered, Decode, FrameLength, FieldsLength, HelloIn, SaysHello;
      fromClient := if |fromClient| > 0 then fromClient + chunk else chunk;
      assert fromClient == old(fromClient) + chunk;
      ghost var all := Peel(ProxyFront, fromClient);
      ghost var me, was := Me(), proxy.portal;
      ghost var done: seq<seq<byte>> := [];
      assert [] + all.frames == all.frames;
      HandleNone(was, me);
      NoHello(helloSerial);
      assert up == old(up) + [];
      while true
        invariant all == Joined(done, Peel(ProxyFront, fromClient))
        invariant up == old(up) + Passed(Handle(done, was, me).0) && proxy.portal == Handle(done, was, me).1
        invariant fromBus == old(fromBus) && down == old(down) && unique == old(unique) && open == old(open)
        invariant proxy.serial == old(proxy.serial)
        invariant helloSerial == HelloIn(done, old(helloSerial))
        decreases |fromClient|
      {
        PeelEnds(ProxyFront, done, fromClient);
        var v := ProxyFront(fromClient);
        if v.Bad? { return true; }
        if v.Wait? { return false; }
        ProxyProgress(fromClient);
        PeelNext(ProxyFront, done, fromClient, v.size);
        var frame := fromClient[..v.size];
        HandleOne(done, frame, was, me);
        NextHello(done, frame, old(helloSerial));
        fromClient := fromClient[v.size..];
        done := done + [frame];
        var here := Look(frame);
        if !here { up := up + [frame]; }
      }
    }

    /** Whether a frame is answered here; if it is the introduction, its serial is kept. */
    method Look(frame: seq<byte>) returns (here: bool)
      modifies `helloSerial, proxy`portal
      ensures here <==> Diverted(frame, old(proxy.portal))
      ensures proxy.portal == Answered(frame, old(proxy.portal), Me())
      ensures var d := Decode(frame);
        helloSerial == if d.Whole? && SaysHello(d.message) then Some(d.message.serial) else old(helloSerial)
    {
      hide Decode, Intercepts;
      var msg := CallIn(frame);
      if msg.None? { return false; }
      if Is(msg.value.destination, DBUS) && Is(msg.value.member, "Hello") {
        helloSerial := Some(msg.value.serial);
      }
      here := Intercepts(msg.value, proxy.portal);
      if here { Close(msg.value); }
    }

    /** As far as a call handed to the portal is dealt with before it has to wait. */
    method Close(m: Message)
      requires Intercepts(m, proxy.portal)
      modifies proxy`portal
      ensures proxy.portal ==
        if !ForChooser(m) && old(proxy.portal).requests[m.path.value] == Me()
        then old(proxy.portal).(requests := old(proxy.portal).requests - {m.path.value}) else old(proxy.portal)
    {
      if ForChooser(m) { return; }
      var path := m.path.value;
      if proxy.portal.requests[path] == Me() {
        proxy.portal := proxy.portal.(requests := proxy.portal.requests - {path});
      }
    }

    /** Every whole frame of the bus goes down as it is. */
    method FromBus(chunk: seq<byte>) returns (lost: bool)
      modifies this
      ensures var p := Peel(ProxyFront, old(fromBus) + chunk);
        && fromBus == p.rest && lost == p.bad
        && down == old(down) + AllRelayed(p.frames)
      ensures fromClient == old(fromClient) && up == old(up) && open == old(open)
      ensures helloSerial == old(helloSerial)
      ensures unique == NameAfter(Peel(ProxyFront, old(fromBus) + chunk).frames, old(unique), helloSerial)
    {
      hide Peel, Decode, FrameLength, FieldsLength;
      fromBus := if |fromBus| > 0 then fromBus + chunk else chunk;
      assert fromBus == old(fromBus) + chunk;
      ghost var all := Peel(ProxyFront, fromBus);
      ghost var done: seq<seq<byte>> := [];
      assert [] + all.frames == all.frames;
      assert down == old(down) + AllRelayed([]);
      while true
        invariant all == Joined(done, Peel(ProxyFront, fromBus))
        invariant down == old(down) + AllRelayed(done)
        invariant fromClient == old(fromClient) && up == old(up) && open == old(open)
        invariant helloSerial == old(helloSerial) && unique == NameAfter(done, old(unique), helloSerial)
        decreases |fromBus|
      {
        PeelEnds(ProxyFront, done, fromBus);
        var v := ProxyFront(fromBus);
        if v.Bad? { return true; }
        if v.Wait? { return false; }
        ProxyProgress(fromBus);
        PeelNext(ProxyFront, done, fromBus, v.size);
        var frame := fromBus[..v.size];
        NextName(done, frame, old(unique), helloSerial);
        fromBus := fromBus[v.size..];
        if unique.None? && helloSerial.Some? {
          var d := Decode(frame);
          if d.Whole? && d.message.kind == METHOD_RETURN && d.message.replySerial == helloSerial
             && d.message.body != [] && d.message.body[0].Text? {
            unique := Some(d.message.body[0].text);
          }
        }
        assert AllRelayed(done + [frame]) == AllRelayed(done) + [Relayed(frame)];
        done := done + [frame];
        down := down + [Relayed(frame)];
      }
    }
  }
}
