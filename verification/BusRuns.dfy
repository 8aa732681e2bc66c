/**
 What passes through the proxy of server/src/busproxy.ts over a whole
 connection: every frame of either side once, in order, whatever the chunks;
 and what depends on when the portal changes between them.
 */
module BusRuns {
  import opened Bytes
  import opened Framing
  import opened DBusSignature
  import opened DBusMessage
  import opened DBusCodec
  import opened BusProxy
  import opened PortalRequests

  /** No header of the stream is longer than the mask can tell. */
  predicate Bounded(stream: seq<byte>) {
    !Peel(ProxyFront, stream).bad
  }

  lemma BoundedBefore(a: seq<byte>, b: seq<byte>)
    requires Bounded(a + b)
    ensures Bounded(a)
    ensures Peel(ProxyFront, a + b) == Feed(ProxyFront, Peel(ProxyFront, a), b)
  {
    ProxyStable();
    PeelInTwo(ProxyFront, a, b);
  }

  /* ---- The client's half ---- */

  /**
   A turn: a chunk of the client's bytes, or anything else, after which the
   portal is another and the connection may have got its name. Requests are
   opened, answered, forgotten and cancelled in turns of their own.
   */
  datatype UpEvent = Spoken(chunk: seq<byte>) | Meanwhile(portal: Portal, me: DBusMessage.Text)

  datatype Upstream = Upstream(buffered: seq<byte>, seen: seq<Handled>, portal: Portal, me: DBusMessage.Text)

  function Chunk(s: Upstream, chunk: seq<byte>): Upstream {
    var p := Peel(ProxyFront, s.buffered + chunk);
    var r := Handle(p.frames, s.portal, s.me);
    s.(buffered := p.rest, seen := s.seen + r.0, portal := r.1)
  }

  function UpStep(s: Upstream, e: UpEvent): Upstream {
    match e
    case Spoken(chunk) => Chunk(s, chunk)
    case Meanwhile(portal, me) => s.(portal := portal, me := me)
  }

  function UpAfter(es: seq<UpEvent>): Upstream {
    if es == [] then Upstream([], [], Portal(None, map[]), [])
    else UpStep(UpAfter(es[..|es| - 1]), es[|es| - 1])
  }

  function Stream(es: seq<UpEvent>): seq<byte> {
    if es == [] then []
    else Stream(es[..|es| - 1]) + (if es[|es| - 1].Spoken? then es[|es| - 1].chunk else [])
  }

  /** What the bus has been sent. */
  function Up(es: seq<UpEvent>): seq<seq<byte>> {
    Passed(UpAfter(es).seen)
  }

  function FramesOf(hs: seq<Handled>): seq<seq<byte>> {
    seq(|hs|, i requires 0 <= i < |hs| => hs[i].frame)
  }

  lemma FramesSplit(a: seq<Handled>, b: seq<Handled>)
    ensures FramesOf(a + b) == FramesOf(a) + FramesOf(b)
  {
  }

  lemma {:induction false} HandleFrames(frames: seq<seq<byte>>, p: Portal, me: DBusMessage.Text)
    ensures FramesOf(Handle(frames, p, me).0) == frames
    decreases |frames|
  {
    hide Answered;
    if frames != [] {
      var q := Answered(frames[0], p, me);
      HandleFrames(frames[1..], q, me);
      FramesSplit([Handled(frames[0], p)], Handle(frames[1..], q, me).0);
      assert FramesOf([Handled(frames[0], p)]) == [frames[0]];
    }
  }

  /**
   However the client's bytes are cut, and however the portal changes between
   the chunks, each frame of the stream is looked at once, whole and in order:
   it goes up unchanged unless it is a call that the portal, as it is when the
   frame is complete, answers itself. What is buffered is the rest.
   */
  lemma {:induction false} ClientFramesPass(es: seq<UpEvent>)
    requires Bounded(Stream(es))
    ensures var s, all := UpAfter(es), Peel(ProxyFront, Stream(es));
      && FramesOf(s.seen) == all.frames && s.buffered == all.rest
      && Concat(FramesOf(s.seen)) + s.buffered == Stream(es)
    decreases |es|
  {
    hide Peel, Handle;
    PeelKeepsBytes(ProxyFront, Stream(es));
    if es == [] {
      NothingPeeled();
    } else {
      var before, e := es[..|es| - 1], es[|es| - 1];
      var chunk := if e.Spoken? then e.chunk else [];
      BoundedBefore(Stream(before), chunk);
      ClientFramesPass(before);
      var s := UpAfter(before);
      if e.Spoken? {
        var frames := Peel(ProxyFront, s.buffered + chunk).frames;
        HandleFrames(frames, s.portal, s.me);
        FramesSplit(s.seen, Handle(frames, s.portal, s.me).0);
      } else {
        assert Stream(es) == Stream(before);
      }
    }
  }

  /**
   So what the bus is sent is the frames of the stream, in order, without the
   calls that the portal in force has an answer for: in the words of the calls.
   */
  lemma GoesUpExactly(es: seq<UpEvent>, i: nat)
    requires Bounded(Stream(es)) && i < |Peel(ProxyFront, Stream(es)).frames|
    ensures var hs, all := UpAfter(es).seen, Peel(ProxyFront, Stream(es)).frames;
      && |hs| == |all| && hs[i].frame == all[i] && Passed(hs[..0]) == [] && Passed(hs[..|hs|]) == Up(es)
      && Passed(hs[..i + 1]) == Passed(hs[..i]) + (if AnsweredHere(all[i], hs[i].portal) then [] else [all[i]])
  {
    ClientFramesPass(es);
    hide Peel, Passed, AnsweredHere, UpAfter;
    var hs := UpAfter(es).seen;
    assert FramesOf(hs)[i] == hs[i].frame;
    assert hs[..|hs|] == hs;
    PassedExactly(hs, i);
  }

  lemma NothingPeeled()
    ensures Peel(ProxyFront, []) == Peeled([], [], false)
  {
  }

  /* ---- When the cutting does not matter ---- */

  /** A portal whose name has that owner, with requests there can be. */
  ghost predicate Fit(p: Portal, owner: Option<DBusMessage.Text>) {
    p.owner == owner && Reachable(p)
  }

  /** The portal's name has the same owner all along. */
  ghost predicate OwnerStays(es: seq<UpEvent>, owner: Option<DBusMessage.Text>) {
    es != [] && es[0].Meanwhile? && forall i :: 0 <= i < |es| && es[i].Meanwhile? ==> Fit(es[i].portal, owner)
  }

  /** A call that closes what can be a request, addressed to the portal. */
  predicate IsClose(frame: seq<byte>, owner: Option<DBusMessage.Text>) {
    var m := CallIn(frame);
    && m.Some? && ToPortal(m.value, owner) && ClosesRequest(m.value) && !ForChooser(m.value)
    && CanBeRequest(m.value.path.value)
  }

  predicate IsChooser(frame: seq<byte>, owner: Option<DBusMessage.Text>) {
    var m := CallIn(frame);
    m.Some? && ToPortal(m.value, owner) && ForChooser(m.value)
  }

  predicate NoneCloses(frames: seq<seq<byte>>, owner: Option<DBusMessage.Text>) {
    forall i :: 0 <= i < |frames| ==> !IsClose(frames[i], owner)
  }

  /** The frames without the calls of the chooser: what goes up, as a function of the stream alone. */
  function WithoutChooser(frames: seq<seq<byte>>, owner: Option<DBusMessage.Text>): seq<seq<byte>> {
    if frames == [] then []
    else (if IsChooser(frames[0], owner) then [] else [frames[0]]) + WithoutChooser(frames[1..], owner)
  }

  /** Whatever is not the close of a request has one verdict under every such portal. */
  lemma VerdictFixed(frame: seq<byte>, p: Portal, owner: Option<DBusMessage.Text>)
    requires Fit(p, owner) && !IsClose(frame, owner)
    ensures Diverted(frame, p) <==> IsChooser(frame, owner)
  {
    hide CallIn, ToPortal, ForChooser, CanBeRequest;
    var m := CallIn(frame);
    if m.Some? && ClosesRequest(m.value) { RequestsAreTheirPaths(m.value.path.value); }
  }

  lemma AnsweredFits(frame: seq<byte>, p: Portal, me: DBusMessage.Text, owner: Option<DBusMessage.Text>)
    requires Fit(p, owner)
    ensures Fit(Answered(frame, p, me), owner)
  {
    hide Sender, RequestPath;
  }

  ghost predicate AllFit(hs: seq<Handled>, owner: Option<DBusMessage.Text>) {
    forall i :: 0 <= i < |hs| ==> Fit(hs[i].portal, owner)
  }

  lemma {:induction false} HandleFits(frames: seq<seq<byte>>, p: Portal, me: DBusMessage.Text,
                                      owner: Option<DBusMessage.Text>)
    requires Fit(p, owner)
    ensures Fit(Handle(frames, p, me).1, owner) && AllFit(Handle(frames, p, me).0, owner)
    decreases |frames|
  {
    hide Answered, Fit;
    if frames != [] {
      AnsweredFits(frames[0], p, me, owner);
      HandleFits(frames[1..], Answered(frames[0], p, me), me, owner);
    }
  }

  lemma {:induction false} FitKept(es: seq<UpEvent>, owner: Option<DBusMessage.Text>)
    requires OwnerStays(es, owner)
    ensures Fit(UpAfter(es).portal, owner) && AllFit(UpAfter(es).seen, owner)
    decreases |es|
  {
    hide Peel, Handle, Fit;
    if |es| == 1 {
      assert es[..0] == [];
    } else {
      var before, e := es[..|es| - 1], es[|es| - 1];
      assert forall i :: 0 <= i < |before| ==> before[i] == es[i];
      FitKept(before, owner);
      var s := UpAfter(before);
      if e.Spoken? { HandleFits(Peel(ProxyFront, s.buffered + e.chunk).frames, s.portal, s.me, owner); }
    }
  }

  lemma {:induction false} PassedWithoutCloses(hs: seq<Handled>, owner: Option<DBusMessage.Text>)
    requires AllFit(hs, owner) && NoneCloses(FramesOf(hs), owner)
    ensures Passed(hs) == WithoutChooser(FramesOf(hs), owner)
  {
    hide IsClose, IsChooser, Diverted, Fit;
    if hs != [] {
      assert FramesOf(hs)[1..] == FramesOf(hs[1..]);
      forall i | 0 <= i < |hs[1..]| ensures !IsClose(FramesOf(hs[1..])[i], owner) {
        assert FramesOf(hs)[i + 1] == FramesOf(hs[1..])[i];
      }
      PassedWithoutCloses(hs[1..], owner);
      assert FramesOf(hs)[0] == hs[0].frame && !IsClose(hs[0].frame, owner);
      VerdictFixed(hs[0].frame, hs[0].portal, owner);
    }
  }

  /** Two runs over one stream, under one owner. */
  ghost predicate Alike(a: seq<UpEvent>, b: seq<UpEvent>, stream: seq<byte>, owner: Option<DBusMessage.Text>) {
    Stream(a) == stream && Stream(b) == stream && OwnerStays(a, owner) && OwnerStays(b, owner)
  }

  /** Without a call that closes a request, what goes up is decided by the stream. */
  lemma UpWithoutCloses(es: seq<UpEvent>, owner: Option<DBusMessage.Text>)
    requires OwnerStays(es, owner) && Bounded(Stream(es))
    requires NoneCloses(Peel(ProxyFront, Stream(es)).frames, owner)
    ensures Up(es) == WithoutChooser(Peel(ProxyFront, Stream(es)).frames, owner)
  {
    ClientFramesPass(es);
    FitKept(es, owner);
    PassedWithoutCloses(UpAfter(es).seen, owner);
  }

  /* ---- And when it does ---- */

  lemma AfterOne(es: seq<UpEvent>, e: UpEvent)
    ensures UpAfter(es + [e]) == UpStep(UpAfter(es), e)
    ensures Stream(es + [e]) == Stream(es) + (if e.Spoken? then e.chunk else [])
  {
    assert (es + [e])[..|es|] == es;
  }

  /** A stretch of bytes said in one turn, under a given portal, behind nothing buffered. */
  lemma Turn(es: seq<UpEvent>, p: Portal, bytes: seq<byte>)
    requires UpAfter(es).buffered == []
    ensures var s := UpAfter(es + [Meanwhile(p, []), Spoken(bytes)]);
      && s.seen == UpAfter(es).seen + Handle(Peel(ProxyFront, bytes).frames, p, []).0
      && s.buffered == Peel(ProxyFront, bytes).rest
    ensures Stream(es + [Meanwhile(p, []), Spoken(bytes)]) == Stream(es) + bytes
  {
    hide Peel, Handle, UpAfter, Stream;
    AfterOne(es, Meanwhile(p, []));
    AfterOne(es + [Meanwhile(p, [])], Spoken(bytes));
    assert es + [Meanwhile(p, []), Spoken(bytes)] == es + [Meanwhile(p, [])] + [Spoken(bytes)];
    assert [] + bytes == bytes;
  }

  /** What is said in three stretches, each under a portal of its own. */
  function ThreeTurns(a: seq<byte>, p: Portal, b: seq<byte>, q: Portal, c: seq<byte>, r: Portal): seq<UpEvent> {
    [Meanwhile(p, []), Spoken(a)] + [Meanwhile(q, []), Spoken(b)] + [Meanwhile(r, []), Spoken(c)]
  }

  lemma ThreeTurnsSeen(a: seq<byte>, p: Portal, b: seq<byte>, q: Portal, c: seq<byte>, r: Portal)
    requires Peel(ProxyFront, a).rest == [] && Peel(ProxyFront, b).rest == []
    ensures UpAfter(ThreeTurns(a, p, b, q, c, r)).seen ==
      Handle(Peel(ProxyFront, a).frames, p, []).0 + Handle(Peel(ProxyFront, b).frames, q, []).0
      + Handle(Peel(ProxyFront, c).frames, r, []).0
    ensures Stream(ThreeTurns(a, p, b, q, c, r)) == a + b + c
  {
    hide Peel, Handle;
    var one := [Meanwhile(p, []), Spoken(a)];
    var two := one + [Meanwhile(q, []), Spoken(b)];
    Turn([], p, a);
    assert [] + one == one;
    Turn(one, q, b);
    Turn(two, r, c);
    assert [] + a == a;
    var h := Handle(Peel(ProxyFront, a).frames, p, []).0;
    assert [] + h == h;
  }

  lemma {:induction false} PeelWhole(frames: seq<seq<byte>>)
    requires KnowsAll(ProxyFront, frames)
    ensures Peel(ProxyFront, Concat(frames)) == Peeled(frames, [], false)
  {
    if frames == [] {
      NothingPeeled();
    } else {
      var next := frames[0];
      PeelKnown(ProxyFront, frames, next, 0);
      assert next[..0] == [] && Concat(frames) + [] == Concat(frames);
    }
  }

  lemma PeelOne(frame: seq<byte>)
    requires Knows(ProxyFront, frame)
    ensures Peel(ProxyFront, frame) == Peeled([frame], [], false)
  {
    PeelWhole([frame]);
    ConcatCons(frame, []);
    assert [frame] + [] == [frame] && frame + [] == frame;
  }

  lemma HandleSingle(frame: seq<byte>, p: Portal, me: DBusMessage.Text)
    ensures Handle([frame], p, me).0 == [Handled(frame, p)]
  {
    HandleNone(Answered(frame, p, me), me);
    assert [frame][1..] == [];
  }

  /** With one that does, the same bytes go up differently, as the request is open or not when it comes. */
  lemma CloseDepends(stream: seq<byte>, owner: Option<DBusMessage.Text>, i: nat)
    returns (a: seq<UpEvent>, b: seq<UpEvent>)
    requires Bounded(stream)
    requires i < |Peel(ProxyFront, stream).frames| && IsClose(Peel(ProxyFront, stream).frames[i], owner)
    ensures Alike(a, b, stream, owner) && Up(a) != Up(b)
  {
    var all := Peel(ProxyFront, stream);
    var f := all.frames[i];
    var path := CallIn(f).value.path.value;
    var before, after := Concat(all.frames[..i]), Concat(all.frames[i + 1..]) + all.rest;
    hide Peel, Up, ThreeTurns, Handle, IsClose;
    FramesKnown(stream);
    PeelWhole(all.frames[..i]);
    CutAt(all.frames, i, all.rest);
    PeelKeepsBytes(ProxyFront, stream);
    a, b := CloseBetween(before, f, after, owner);
  }

  lemma CloseBetween(before: seq<byte>, f: seq<byte>, after: seq<byte>, owner: Option<DBusMessage.Text>)
    returns (a: seq<UpEvent>, b: seq<UpEvent>)
    requires Knows(ProxyFront, f) && IsClose(f, owner) && Peel(ProxyFront, before).rest == []
    ensures Alike(a, b, before + f + after, owner) && Up(a) != Up(b)
  {
    var none := Portal(owner, map[]);
    var some := CloseEitherWay(f, owner);
    hide Peel, Handle, IsClose, Diverted, Passed, UpAfter, Stream, ThreeTurns, OwnerStays;
    a, b := ThreeTurns(before, none, f, none, after, none), ThreeTurns(before, none, f, some, after, none);
    ThreeTurnsOwned(before, f, none, after, owner);
    ThreeTurnsOwned(before, f, some, after, owner);
    ThreeTurnsPassed(before, f, none, after, owner);
    ThreeTurnsPassed(before, f, some, after, owner);
  }

  lemma ThreeTurnsOwned(a: seq<byte>, b: seq<byte>, q: Portal, c: seq<byte>, owner: Option<DBusMessage.Text>)
    requires Fit(q, owner)
    ensures OwnerStays(ThreeTurns(a, Portal(owner, map[]), b, q, c, Portal(owner, map[])), owner)
  {
  }

  /** How many frames go up when one of them comes under a portal of its own. */
  lemma ThreeTurnsPassed(a: seq<byte>, f: seq<byte>, q: Portal, c: seq<byte>, owner: Option<DBusMessage.Text>)
    requires Knows(ProxyFront, f) && Peel(ProxyFront, a).rest == []
    ensures var none := Portal(owner, map[]);
      && Stream(ThreeTurns(a, none, f, q, c, none)) == a + f + c
      && |Up(ThreeTurns(a, none, f, q, c, none))| ==
         |Passed(Handle(Peel(ProxyFront, a).frames, none, []).0)| + (if Diverted(f, q) then 0 else 1)
         + |Passed(Handle(Peel(ProxyFront, c).frames, none, []).0)|
  {
    hide Peel, Handle, Diverted, Passed, UpAfter, Stream, ThreeTurns, Knows;
    var none := Portal(owner, map[]);
    PeelOne(f);
    ThreeTurnsSeen(a, none, f, q, c, none);
    HandleSingle(f, q, []);
    var x, y := Handle(Peel(ProxyFront, a).frames, none, []).0, Handle(Peel(ProxyFront, c).frames, none, []).0;
    PassedAround(x, Handled(f, q), y);
  }

  /** A portal in which the request is open; without one the call is not diverted. */
  lemma CloseEitherWay(f: seq<byte>, owner: Option<DBusMessage.Text>) returns (open: Portal)
    requires IsClose(f, owner)
    ensures Fit(open, owner) && Diverted(f, open) && !Diverted(f, Portal(owner, map[]))
  {
    hide ToPortal, ForChooser, CanBeRequest, RequestPath, Sender;
    var path := CallIn(f).value.path.value;
    var n, token := RequestAt(path);
    open := Portal(owner, map[path := n]);
  }

  lemma CutAt(frames: seq<seq<byte>>, i: nat, rest: seq<byte>)
    requires i < |frames|
    ensures Concat(frames[..i]) + frames[i] + (Concat(frames[i + 1..]) + rest) == Concat(frames) + rest
  {
    hide Concat;
    var a, f, b := frames[..i], frames[i], frames[i + 1..];
    AtIndex(frames, i);
    ConcatSplit(a, [f] + b);
    ConcatCons(f, b);
    MiddleOut(Concat(a), f, Concat(b), rest);
  }

  lemma AtIndex<T>(s: seq<T>, i: nat)
    requires i < |s|
    ensures s == s[..i] + ([s[i]] + s[i + 1..])
  {
  }

  lemma MiddleOut(x: seq<byte>, f: seq<byte>, y: seq<byte>, rest: seq<byte>)
    ensures x + f + (y + rest) == x + (f + y) + rest
  {
  }

  lemma PassedAround(x: seq<Handled>, h: Handled, y: seq<Handled>)
    ensures |Passed(x + [h] + y)| == |Passed(x)| + (if Diverted(h.frame, h.portal) then 0 else 1) + |Passed(y)|
  {
    hide Diverted, Passed;
    PassedSplit(x + [h], y);
    PassedSplit(x, [h]);
    PassedOne(h);
  }

  /**
   Exactly when chunks and turns do not matter: with the portal's owner staying
   the same, every run over a stream sends the same frames up if and only if
   the stream has no call that closes, at a path a request can have, a request
   of the portal.
   */
  lemma CutsDoNotMatter(stream: seq<byte>, owner: Option<DBusMessage.Text>)
    requires Bounded(stream)
    ensures NoneCloses(Peel(ProxyFront, stream).frames, owner) <==>
      forall a, b :: Alike(a, b, stream, owner) ==> Up(a) == Up(b)
  {
    hide Peel, Up;
    var frames := Peel(ProxyFront, stream).frames;
    if NoneCloses(frames, owner) {
      forall a, b | Alike(a, b, stream, owner) ensures Up(a) == Up(b) {
        UpWithoutCloses(a, owner);
        UpWithoutCloses(b, owner);
      }
    } else {
      var i :| 0 <= i < |frames| && IsClose(frames[i], owner);
      var a, b := CloseDepends(stream, owner, i);
    }
  }

  /**
   The case to have in mind: a dialog is asked for, and its request closed at
   the path the application can foresee from its name and the token it gave. In
   one chunk the close finds no request and goes to the bus; in two, with the
   request opened between them, it is answered here.
   */
  lemma OpenThenClose(open: Message, close: Message, openTypes: seq<Type>, closeTypes: seq<Type>,
                      owner: Option<DBusMessage.Text>, me: DBusMessage.Text)
    requires Sendable(open, openTypes) && |Encode(open)| <= MESSAGE_MAX && open.kind == METHOD_CALL
    requires Sendable(close, closeTypes) && |Encode(close)| <= MESSAGE_MAX && close.kind == METHOD_CALL
    requires ToPortal(open, owner) && OpensDialog(open) && Token(open).Some? && Sender(me)
    requires ToPortal(close, owner) && Is(close.iface, REQUEST) && Is(close.member, "Close")
    requires close.path == Some(RequestPath(me, Token(open).value))
    ensures var f, g := Encode(open), Encode(close);
      var none := Portal(owner, map[]);
      var asked := Opened(open, me, none);
      && Fit(none, owner) && Fit(asked, owner)
      && Up([Meanwhile(none, me), Spoken(f + g)]) == [g]
      && Up([Meanwhile(none, me), Spoken(f), Meanwhile(asked, me), Spoken(g)]) == []
  {
    var f, g := Encode(open), Encode(close);
    hide Encode, Peel, Handle, Passed, Knows, Sendable, UpAfter, Fit;
    hide Is, ToPortal, ForChooser, ClosesRequest, OpensDialog, RequestPath, Token;
    AskedFits(open, owner, me);
    OpensForChooser(open);
    ClosesNotChooses(close, me, Token(open).value);
    EncodedKnown(open, openTypes);
    EncodedKnown(close, closeTypes);
    CallEncoded(open, openTypes);
    CallEncoded(close, closeTypes);
    VerdictsOf(f, g, open, close, owner, me);
    TogetherAndApart(f, g, Portal(owner, map[]), Opened(open, me, Portal(owner, map[])), me);
  }

  /** Two calls said in one turn, and in a turn each. */
  lemma TogetherAndApart(f: seq<byte>, g: seq<byte>, none: Portal, asked: Portal, me: DBusMessage.Text)
    requires Knows(ProxyFront, f) && Knows(ProxyFront, g)
    ensures Up([Meanwhile(none, me), Spoken(f + g)]) == Passed(Handle([f, g], none, me).0)
    ensures Up([Meanwhile(none, me), Spoken(f), Meanwhile(asked, me), Spoken(g)]) ==
      Passed(Handle([f], none, me).0) + Passed(Handle([g], asked, me).0)
  {
    hide Peel, Handle, Passed, UpAfter, Knows;
    PeelOne(f);
    PeelOne(g);
    PeelTwo(f, g);
    OneTurn(none, me, f + g);
    TwoTurns(none, asked, me, f, g);
    PassedSplit(Handle([f], none, me).0, Handle([g], asked, me).0);
  }

  lemma AskedFits(m: Message, owner: Option<DBusMessage.Text>, me: DBusMessage.Text)
    requires Token(m).Some? && Sender(me)
    ensures Fit(Portal(owner, map[]), owner) && Fit(Opened(m, me, Portal(owner, map[])), owner)
  {
    hide Sender, RequestPath, Token;
    OpenedReachable(Portal(owner, map[]), me, Token(m).value);
  }

  lemma OpensForChooser(m: Message)
    requires OpensDialog(m)
    ensures ForChooser(m)
  {
  }

  lemma ClosesNotChooses(m: Message, n: DBusMessage.Text, token: DBusMessage.Text)
    requires Is(m.iface, REQUEST) && Is(m.member, "Close") && m.path == Some(RequestPath(n, token))
    ensures ClosesRequest(m) && !ForChooser(m)
  {
  }

  lemma PeelTwo(f: seq<byte>, g: seq<byte>)
    requires Knows(ProxyFront, f) && Knows(ProxyFront, g)
    ensures Peel(ProxyFront, f + g) == Peeled([f, g], [], false)
  {
    PeelWhole([f, g]);
    ConcatCons(f, [g]);
    ConcatCons(g, []);
    assert [f] + [g] == [f, g] && [g] + [] == [g] && g + [] == g;
  }

  lemma TwoTurns(p: Portal, q: Portal, me: DBusMessage.Text, f: seq<byte>, g: seq<byte>)
    requires Peel(ProxyFront, f).rest == []
    ensures UpAfter([Meanwhile(p, me), Spoken(f), Meanwhile(q, me), Spoken(g)]).seen ==
      Handle(Peel(ProxyFront, f).frames, p, me).0 + Handle(Peel(ProxyFront, g).frames, q, me).0
  {
    hide Peel, Handle;
    var start := [Meanwhile(p, me), Spoken(f)];
    OneTurn(p, me, f);
    AfterOne(start, Meanwhile(q, me));
    AfterOne(start + [Meanwhile(q, me)], Spoken(g));
    assert start + [Meanwhile(q, me)] + [Spoken(g)] == [Meanwhile(p, me), Spoken(f), Meanwhile(q, me), Spoken(g)];
    assert [] + g == g;
  }

  lemma CallEncoded(m: Message, types: seq<Type>)
    requires Sendable(m, types) && m.kind == METHOD_CALL
    ensures CallIn(Encode(m)) == Some(m)
  {
    hide Encode, Decode;
    DecodeEncode(m, types, []);
    assert Encode(m) + [] == Encode(m);
  }

  lemma OneTurn(p: Portal, me: DBusMessage.Text, bytes: seq<byte>)
    ensures var s := UpAfter([Meanwhile(p, me), Spoken(bytes)]);
      && s.seen == Handle(Peel(ProxyFront, bytes).frames, p, me).0
      && s.buffered == Peel(ProxyFront, bytes).rest
  {
    hide Peel, Handle;
    AfterOne([], Meanwhile(p, me));
    AfterOne([Meanwhile(p, me)], Spoken(bytes));
    assert [] + [Meanwhile(p, me)] == [Meanwhile(p, me)];
    assert [Meanwhile(p, me)] + [Spoken(bytes)] == [Meanwhile(p, me), Spoken(bytes)];
    assert [] + bytes == bytes;
    var h := Handle(Peel(ProxyFront, bytes).frames, p, me).0;
    assert [] + h == h;
  }

  lemma VerdictsOf(f: seq<byte>, g: seq<byte>, open: Message, close: Message,
                   owner: Option<DBusMessage.Text>, me: DBusMessage.Text)
    requires CallIn(f) == Some(open) && ToPortal(open, owner) && ForChooser(open)
    requires CallIn(g) == Some(close) && ToPortal(close, owner) && ClosesRequest(close) && !ForChooser(close)
    requires close.path.Some?
    ensures var none, asked := Portal(owner, map[]), Portal(owner, map[close.path.value := me]);
      && Passed(Handle([f, g], none, me).0) == [g]
      && Passed(Handle([f], none, me).0) == [] && Passed(Handle([g], asked, me).0) == []
  {
    hide CallIn, ToPortal, ForChooser, ClosesRequest, Passed;
    var none, asked := Portal(owner, map[]), Portal(owner, map[close.path.value := me]);
    HandleSingle(f, none, me);
    HandleSingle(g, asked, me);
    HandleOne([f], g, none, me);
    HandleOne([], f, none, me);
    HandleNone(none, me);
    assert [f] + [g] == [f, g] && [] + [f] == [f];
    PassedOne(Handled(f, none));
    PassedOne(Handled(g, asked));
    var hs := [Handled(f, none)];
    assert [] + hs == hs;
  }

  /* ---- The bus's half ---- */

  /** The bytes of the bus among what was written to the application. */
  function BusBytes(down: seq<Write>): seq<byte> {
    if down == [] then []
    else (if down[0].Relayed? then down[0].frame else []) + BusBytes(down[1..])
  }

  lemma {:induction false} BusBytesSplit(a: seq<Write>, b: seq<Write>)
    ensures BusBytes(a + b) == BusBytes(a) + BusBytes(b)
  {
    if a == [] {
      assert a + b == b;
    } else {
      assert (a + b)[1..] == a[1..] + b;
      BusBytesSplit(a[1..], b);
    }
  }

  lemma {:induction false} BusBytesRelayed(frames: seq<seq<byte>>)
    ensures BusBytes(AllRelayed(frames)) == Concat(frames)
  {
    if frames != [] {
      assert AllRelayed(frames)[1..] == AllRelayed(frames[1..]);
      BusBytesRelayed(frames[1..]);
    }
  }

  /** The bus's half of a connection: chunks of the bus, and answers of ours at any moment between them. */
  datatype Downstream = Downstream(buffered: seq<byte>, down: seq<Write>)

  datatype DownEvent = Heard(chunk: seq<byte>) | Answers(m: Message)

  function Flow(es: seq<DownEvent>): Downstream {
    if es == [] then Downstream([], [])
    else
      var s := Flow(es[..|es| - 1]);
      match es[|es| - 1]
      case Heard(chunk) =>
        var p := Peel(ProxyFront, s.buffered + chunk);
        Downstream(p.rest, s.down + AllRelayed(p.frames))
      case Answers(m) => s.(down := s.down + [Injected(Encode(m))])
  }

  function Said(es: seq<DownEvent>): seq<byte> {
    if es == [] then []
    else Said(es[..|es| - 1]) + (if es[|es| - 1].Heard? then es[|es| - 1].chunk else [])
  }

  function Given(es: seq<DownEvent>): seq<seq<byte>> {
    if es == [] then []
    else Given(es[..|es| - 1]) + (if es[|es| - 1].Answers? then [Encode(es[|es| - 1].m)] else [])
  }

  function Frames(down: seq<Write>): seq<seq<byte>> {
    if down == [] then []
    else Frames(down[..|down| - 1]) + (if down[|down| - 1].Relayed? then [down[|down| - 1].frame] else [])
  }

  function Injections(down: seq<Write>): seq<seq<byte>> {
    if down == [] then []
    else Injections(down[..|down| - 1]) + (if down[|down| - 1].Injected? then [down[|down| - 1].bytes] else [])
  }

  lemma {:induction false} RelayedOnly(down: seq<Write>, frames: seq<seq<byte>>)
    ensures Frames(down + AllRelayed(frames)) == Frames(down) + frames
    ensures Injections(down + AllRelayed(frames)) == Injections(down)
    decreases |frames|
  {
    hide Frames, Injections;
    if frames == [] {
      assert down + AllRelayed(frames) == down && Frames(down) + frames == Frames(down);
    } else {
      var before, last := frames[..|frames| - 1], frames[|frames| - 1];
      RelayedOnly(down, before);
      RelayedOne(down + AllRelayed(before), last);
      assert down + AllRelayed(before) + [Relayed(last)] == down + AllRelayed(frames);
      assert before + [last] == frames;
      Regroup(Frames(down), before, [last]);
    }
  }

  lemma RelayedOne(down: seq<Write>, frame: seq<byte>)
    ensures Frames(down + [Relayed(frame)]) == Frames(down) + [frame]
    ensures Injections(down + [Relayed(frame)]) == Injections(down)
  {
    assert (down + [Relayed(frame)])[..|down|] == down;
  }

  lemma InjectedOnly(down: seq<Write>, bytes: seq<byte>)
    ensures Frames(down + [Injected(bytes)]) == Frames(down)
    ensures Injections(down + [Injected(bytes)]) == Injections(down) + [bytes]
  {
    assert (down + [Injected(bytes)])[..|down|] == down;
  }

  /**
   However the bus's bytes are cut and whenever answers are written, the
   application is sent the whole frames of the bus's stream in order, and the
   answers in order, each of either between two others.
   */
  lemma {:induction false} BusFramesPass(es: seq<DownEvent>)
    requires Bounded(Said(es))
    ensures var p := Peel(ProxyFront, Said(es));
      && Flow(es).buffered == p.rest
      && Frames(Flow(es).down) == p.frames
      && Injections(Flow(es).down) == Given(es)
    decreases |es|
  {
    hide Peel, Frames, Injections, Encode;
    if es == [] {
      NothingSaid();
    } else {
      var before, e := es[..|es| - 1], es[|es| - 1];
      var chunk := if e.Heard? then e.chunk else [];
      BoundedBefore(Said(before), chunk);
      BusFramesPass(before);
      var s := Flow(before);
      if e.Heard? {
        RelayedOnly(s.down, Peel(ProxyFront, s.buffered + e.chunk).frames);
        assert Given(es) == Given(before);
      } else {
        InjectedOnly(s.down, Encode(e.m));
        assert Said(es) == Said(before);
      }
    }
  }

  lemma NothingSaid()
    ensures Peel(ProxyFront, []) == Peeled([], [], false)
    ensures Frames([]) == [] && Injections([]) == []
  {
  }

  /** Every byte the bus has said has been passed on but the beginning of a frame, and no answer is among them. */
  lemma {:induction false} BusBytesPass(es: seq<DownEvent>)
    ensures Said(es) == BusBytes(Flow(es).down) + Flow(es).buffered
    decreases |es|
  {
    hide Peel, Encode;
    if es != [] {
      var before, e := es[..|es| - 1], es[|es| - 1];
      var s := Flow(before);
      BusBytesPass(before);
      if e.Heard? {
        ChunkPasses(Said(before), s.down, s.buffered, e.chunk);
      } else {
        AnswerPasses(s.down, Encode(e.m));
        assert Said(es) == Said(before);
      }
    }
  }

  lemma ChunkPasses(received: seq<byte>, down: seq<Write>, buffered: seq<byte>, chunk: seq<byte>)
    requires received == BusBytes(down) + buffered
    ensures var p := Peel(ProxyFront, buffered + chunk);
      received + chunk == BusBytes(down + AllRelayed(p.frames)) + p.rest
  {
    var p := Peel(ProxyFront, buffered + chunk);
    PeelKeepsBytes(ProxyFront, buffered + chunk);
    BusBytesSplit(down, AllRelayed(p.frames));
    BusBytesRelayed(p.frames);
    Regroup(BusBytes(down), buffered, chunk);
    Regroup(BusBytes(down), Concat(p.frames), p.rest);
  }

  lemma AnswerPasses(down: seq<Write>, bytes: seq<byte>)
    ensures BusBytes(down + [Injected(bytes)]) == BusBytes(down)
  {
    BusBytesSplit(down, [Injected(bytes)]);
    assert [Injected(bytes)][1..] == [];
    assert BusBytes([Injected(bytes)]) == [];
    assert BusBytes(down) + [] == BusBytes(down);
  }

  /* ---- What the application makes of it ---- */

  /** The writes, each as it was made. */
  function Written(down: seq<Write>): seq<seq<byte>> {
    seq(|down|, i requires 0 <= i < |down| => if down[i].Relayed? then down[i].frame else down[i].bytes)
  }

  /** An answer is a message, and no longer than one may be. */
  ghost predicate Answerable(es: seq<DownEvent>) {
    forall i :: 0 <= i < |es| && es[i].Answers? ==>
      |Encode(es[i].m)| <= MESSAGE_MAX && exists types :: Sendable(es[i].m, types)
  }

  ghost predicate WritesKnown(down: seq<Write>) {
    KnowsAll(ProxyFront, Written(down))
  }

  lemma {:induction false} FlowKnown(es: seq<DownEvent>)
    requires Answerable(es)
    ensures WritesKnown(Flow(es).down)
    decreases |es|
  {
    hide Peel, Encode, Sendable, Knows;
    if es != [] {
      var before, e := es[..|es| - 1], es[|es| - 1];
      assert forall i :: 0 <= i < |before| ==> before[i] == es[i];
      FlowKnown(before);
      var s := Flow(before);
      if e.Heard? {
        FramesKnown(s.buffered + e.chunk);
        var frames := Peel(ProxyFront, s.buffered + e.chunk).frames;
        assert Written(s.down + AllRelayed(frames)) == Written(s.down) + frames;
      } else {
        var types :| Sendable(e.m, types);
        EncodedKnown(e.m, types);
        assert Written(s.down + [Injected(Encode(e.m))]) == Written(s.down) + [Encode(e.m)];
      }
    }
  }

  /**
   An answer falls only between whole frames: an application that takes frames
   off the bytes it is sent, however those arrive, takes exactly what was
   written, each frame of the bus and each answer by itself.
   */
  lemma AnswersFallBetween(es: seq<DownEvent>, chunks: seq<seq<byte>>)
    requires Answerable(es) && Concat(chunks) == Concat(Written(Flow(es).down))
    ensures FeedAll(ProxyFront, Nothing, chunks) == Peeled(Written(Flow(es).down), [], false)
  {
    hide Peel, Encode, Sendable, Knows, Flow;
    FlowKnown(es);
    PeelWhole(Written(Flow(es).down));
    ProxyStable();
    ChunksDoNotMatter(ProxyFront, [], chunks);
    NothingPeeled();
    assert [] + Concat(chunks) == Concat(chunks);
  }
}
