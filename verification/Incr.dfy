/**
 The X clipboard, compositor/src/xwm.c: text goes out to a requestor and comes
 in from an owner through a property, whole or piece by piece as section 2.7.2
 of the ICCCM has it, each deletion of the property asking for the next piece.
 */
module Incr {
  import opened Bytes
  import opened Latin1

  type Text = seq<byte>

  const CLIP_MAX: nat := 1024 * 1024
  const INCR_PIECE: nat := 256 * 1024
  const PUSH_SECONDS: nat := 10
  /** What one request for a property's value reads: `CLIP_MAX / 4 + 1` words. */
  const READ_MAX: nat := (CLIP_MAX / 4 + 1) * 4

  /** What a requestor asks for: text in UTF-8, text in Latin-1, something about it, or something else. */
  datatype Target = Utf8 | Latin | About | Unknown

  /** The property of a requestor's window. */
  datatype Property = Size(total: nat) | Piece(bytes: Text) | Words

  datatype Push = Push(requestor: nat, data: Text, at: nat, started: int)

  /** Our half, as far as pasting goes, and the requestors' properties. */
  datatype Server = Server(clip: Option<Text>, push: Option<Push>, props: map<nat, Property>)

  function First(s: Text, n: nat): (r: Text)
    ensures |r| == Min(|s|, n)
  {
    s[..Min(|s|, n)]
  }

  /** The text a target gets. */
  function Rendered(clip: Text, target: Target): Text {
    if target == Latin then ToLatin1(clip) else clip
  }

  predicate Busy(x: Server, now: int) {
    x.push.Some? && now - x.push.value.started < PUSH_SECONDS
  }

  function Answer(x: Server, to: nat, target: Target, now: int): (Server, bool) {
    if x.clip.None? || target == Unknown then (x, false)
    else if target == About then (x.(props := x.props[to := Words]), true)
    else
      var data := Rendered(x.clip.value, target);
      if |data| <= INCR_PIECE then (x.(props := x.props[to := Piece(data)]), true)
      else if Busy(x, now) then (x, false)
      else (x.(push := Some(Push(to, data, 0, now)), props := x.props[to := Size(|data|)]), true)
  }

  /** The next piece goes into the property; an empty one was all. */
  function PushPiece(x: Server): Server
    requires x.push.Some? && x.push.value.at <= |x.push.value.data|
  {
    var p := x.push.value;
    var n := Min(|p.data| - p.at, INCR_PIECE);
    var written := x.props[p.requestor := Piece(p.data[p.at..p.at + n])];
    x.(props := written, push := if n == 0 then None else Some(p.(at := p.at + n)))
  }

  /** A requestor has deleted its property. */
  function Deleted(x: Server, r: nat): Server
    requires x.push.Some? ==> x.push.value.at <= |x.push.value.data|
  {
    var y := x.(props := x.props - {r});
    if y.push.Some? && y.push.value.requestor == r then PushPiece(y) else y
  }

  /** What there is to paste for a target: the text itself, or each of its characters in Latin-1. */
  predicate PastedAs(data: Text, clip: Text, target: Target) {
    && (target == Utf8 ==> data == clip)
    && (target == Latin ==> data == ToLatin1(clip) && (InLatin1(clip) ==> ToUtf8(data) == clip))
  }

  /**
   The answer to a paste: none for want of text or of a form for it, or while
   another long text is on its way and less than ten seconds old; else the text
   whole, or its size, if it has more than 256 KiB, with a transfer from its
   beginning.
   */
  lemma AnswerExactly(x: Server, to: nat, target: Target, now: int) returns (data: Text)
    ensures x.clip.Some? && (target == Utf8 || target == Latin) ==> PastedAs(data, x.clip.value, target)
    ensures var (y, ok) := Answer(x, to, target, now);
      if x.clip.None? || target == Unknown then !ok && y == x
      else if target == About then ok && y == x.(props := x.props[to := Words])
      else if |data| <= 262144 then ok && y == x.(props := x.props[to := Piece(data)])
      else if x.push.Some? && now - x.push.value.started < 10 then !ok && y == x
      else ok && y == x.(push := Some(Push(to, data, 0, now)), props := x.props[to := Size(|data|)])
  {
    data := if x.clip.Some? then Rendered(x.clip.value, target) else [];
    if x.clip.Some? { Utf8Back(x.clip.value); }
    hide ToLatin1, ToUtf8;
  }

  /* ---- Requestors ---- */

  /** A requestor: `want` is the text that was there for it when it asked. */
  datatype Requestor =
    | Reading(want: Text, got: Text, incr: bool)
    | Done(want: Text, got: Text)

  datatype World = World(server: Server, requestors: map<nat, Requestor>)

  datatype Event =
    | Ask(r: nat, target: Target, now: int)
    | Take(r: nat)
    | Copy(text: Text)

  predicate Pushing(w: World, r: nat) {
    w.server.push.Some? && w.server.push.value.requestor == r
  }

  predicate Textual(target: Target) {
    target == Utf8 || target == Latin
  }

  /** A requestor asks again only once its transfer is over; it reads what is there for it. */
  predicate Enabled(w: World, e: Event) {
    && (w.server.push.Some? ==> w.server.push.value.at <= |w.server.push.value.data|)
    && match e
       case Ask(r, _, _) => !Pushing(w, r)
       case Take(r) => r in w.requestors && w.requestors[r].Reading? && r in w.server.props && !w.server.props[r].Words?
       case Copy(_) => true
  }

  function Asked(w: World, r: nat, target: Target, now: int): World {
    var (server, ok) := Answer(w.server, r, target, now);
    if ok && Textual(target) && w.server.clip.Some? then
      var want := Rendered(w.server.clip.value, target);
      World(server, w.requestors[r := Reading(want, [], |want| > INCR_PIECE)])
    else World(server, w.requestors - {r})
  }

  function Received(q: Requestor, p: Property): Requestor
    requires q.Reading?
  {
    if !p.Piece? then q
    else
      var got := q.got + p.bytes;
      if !q.incr || p.bytes == [] then Done(q.want, got) else Reading(q.want, got, true)
  }

  function Step(w: World, e: Event): World
    requires Enabled(w, e)
  {
    match e
    case Ask(r, target, now) => Asked(w, r, target, now)
    case Take(r) => World(Deleted(w.server, r), w.requestors[r := Received(w.requestors[r], w.server.props[r])])
    case Copy(text) => w.(server := w.server.(clip := Some(text)))
  }

  /* ---- What every event keeps ---- */

  predicate IsPrefix(a: Text, b: Text) {
    |a| <= |b| && a == b[..|a|]
  }

  /** How a requestor stands to the property it reads from, and to the transfer, if one is to it. */
  predicate Flows(w: World, r: nat)
    requires r in w.requestors
  {
    var q := w.requestors[r];
    var prop := if r in w.server.props then Some(w.server.props[r]) else None;
    match q
    case Done(want, got) => got == want && !Pushing(w, r)
    case Reading(want, got, incr) =>
      if !incr then prop == Some(Piece(want)) && got == [] && |want| <= INCR_PIECE && !Pushing(w, r)
      else if Pushing(w, r) then
        && w.server.push.value.data == want
        && prop.Some?
        && InStep(prop.value, want, got, w.server.push.value.at)
      else
        && IsPrefix(got, want)
        && (prop.Some? && prop.value.Piece? ==>
              |prop.value.bytes| <= INCR_PIECE && IsPrefix(got + prop.value.bytes, want)
              && (prop.value.bytes == [] ==> got == want))
        && (prop.Some? ==> !prop.value.Words?)
  }

  /** What has been read and what is there to be read are the text up to where the transfer stands. */
  predicate InStep(p: Property, want: Text, got: Text, at: nat) {
    at <= |want| &&
    match p
    case Size(n) => n == |want| && got == [] && at == 0
    case Piece(b) => 0 < |b| <= INCR_PIECE && got + b == want[..at]
    case Words => false
  }

  ghost predicate Good(w: World) {
    && (w.server.push.Some? ==>
          && w.server.push.value.at <= |w.server.push.value.data|
          && w.server.push.value.requestor in w.requestors
          && w.requestors[w.server.push.value.requestor].Reading?
          && w.requestors[w.server.push.value.requestor].incr)
    && forall r :: r in w.requestors ==> Flows(w, r)
  }

  lemma TakeFlows(w: World, r: nat)
    requires Good(w) && Enabled(w, Take(r))
    ensures Flows(Step(w, Take(r)), r)
    ensures var v := Step(w, Take(r));
      Pushing(v, r) ==>
        && v.server.push.value.at <= |v.server.push.value.data|
        && v.requestors[r].Reading? && v.requestors[r].incr
  {
    assert Flows(w, r);
    var q, p := w.requestors[r], w.server.props[r];
    if Pushing(w, r) {
      PushTakes(w, r);
    } else if !q.incr {
      assert [] + q.want == q.want;
    } else if p.Piece? && p.bytes == [] {
      assert q.got + [] == q.got;
    }
  }

  lemma PushTakes(w: World, r: nat)
    requires Good(w) && Enabled(w, Take(r)) && Pushing(w, r)
    ensures Flows(Step(w, Take(r)), r)
    ensures var v := Step(w, Take(r));
      Pushing(v, r) ==>
        && v.server.push.value.at <= |v.server.push.value.data|
        && v.requestors[r].Reading? && v.requestors[r].incr
  {
    assert Flows(w, r);
    var q := w.requestors[r];
    NextPiece(q.want, w.server.push.value.at);
    assert q.got + [] == q.got;
  }

  lemma NextPiece(want: Text, at: nat)
    requires at <= |want|
    ensures var n := Min(|want| - at, INCR_PIECE);
      want[..at] + want[at..at + n] == want[..at + n]
  {
  }

  lemma OtherFlows(w: World, e: Event, r: nat)
    requires Good(w) && Enabled(w, e) && r in w.requestors && (e.Copy? || e.r != r)
    ensures r in Step(w, e).requestors && Flows(Step(w, e), r)
  {
    assert Flows(w, r);
    var v := Step(w, e);
    OtherSteps(w, e, r);
    hide Step, Enabled, Good;
    if Pushing(w, r) && !Pushing(v, r) { CutFlows(w, v, r); }
  }

  /** What an event that is not a requestor's leaves of what it sees: all, or all but the transfer. */
  lemma OtherSteps(w: World, e: Event, r: nat)
    requires Good(w) && Enabled(w, e) && r in w.requestors && (e.Copy? || e.r != r)
    ensures var v := Step(w, e);
      && r in v.requestors && v.requestors[r] == w.requestors[r]
      && (r in v.server.props <==> r in w.server.props)
      && (r in v.server.props ==> v.server.props[r] == w.server.props[r])
      && (Pushing(v, r) ==> v.server.push == w.server.push)
  {
  }

  lemma CutFlows(w: World, v: World, r: nat)
    requires r in w.requestors && Flows(w, r) && Pushing(w, r) && !Pushing(v, r)
    requires r in v.requestors && v.requestors[r] == w.requestors[r]
    requires r in w.server.props && r in v.server.props && v.server.props[r] == w.server.props[r]
    ensures Flows(v, r)
  {
    var q := w.requestors[r];
    if q.Reading? && w.server.props[r].Piece? {
      assert q.got + w.server.props[r].bytes == q.want[..w.server.push.value.at];
      assert q.got == (q.got + w.server.props[r].bytes)[..|q.got|];
    }
  }

  lemma AskFlows(w: World, r: nat, target: Target, now: int)
    requires Good(w) && !Pushing(w, r)
    ensures r in Asked(w, r, target, now).requestors ==> Flows(Asked(w, r, target, now), r)
  {
  }

  /** Every event keeps every requestor in step. */
  lemma StepGood(w: World, e: Event)
    requires Good(w) && Enabled(w, e)
    ensures Good(Step(w, e))
  {
    hide Flows;
    var v := Step(w, e);
    if e.Take? { TakeFlows(w, e.r); }
    if e.Ask? { AskFlows(w, e.r, e.target, e.now); }
    forall r | r in v.requestors ensures Flows(v, r) {
      if e.Copy? || e.r != r { OtherFlows(w, e, r); }
    }
  }

  /* ---- Over whole runs ---- */

  ghost predicate Runs(w: World, es: seq<Event>)
    decreases |es|
  {
    es == [] || (Enabled(w, es[0]) && Runs(Step(w, es[0]), es[1..]))
  }

  ghost function After(w: World, es: seq<Event>): World
    requires Runs(w, es)
    decreases |es|
  {
    if es == [] then w else After(Step(w, es[0]), es[1..])
  }

  lemma {:induction false} RunGood(w: World, es: seq<Event>)
    requires Good(w) && Runs(w, es)
    ensures Good(After(w, es))
    decreases |es|
  {
    hide Good, Step, Enabled;
    if es != [] {
      StepGood(w, es[0]);
      RunGood(Step(w, es[0]), es[1..]);
    }
  }

  const IDLE := World(Server(None, None, map[]), map[])

  /**
   However pastes, copies and deletions interleave, what a requestor has read
   is the beginning of the text that was there when it asked, it never finds
   more than a piece's worth, and one that has come to the end has all of it.
   */
  lemma TextDelivered(es: seq<Event>, r: nat)
    requires Runs(IDLE, es) && r in After(IDLE, es).requestors
    ensures var w := After(IDLE, es);
      && IsPrefix(w.requestors[r].got, w.requestors[r].want)
      && (w.requestors[r].Done? ==> w.requestors[r].got == w.requestors[r].want)
      && (w.requestors[r].Reading? && r in w.server.props && w.server.props[r].Piece? ==>
            |w.server.props[r].bytes| <= 262144)
  {
    RunGood(IDLE, es);
    var w := After(IDLE, es);
    assert Flows(w, r);
    if Pushing(w, r) && w.server.props[r].Piece? {
      var q, b := w.requestors[r], w.server.props[r].bytes;
      assert q.got == (q.got + b)[..|q.got|];
    }
  }

  /** How many reads it takes from `left` unsent bytes to the empty piece. */
  function Reads(left: nat): nat {
    if left == 0 then 1 else 1 + Reads(left - Min(left, INCR_PIECE))
  }

  /** `n` reads by one requestor. */
  function Taken(w: World, r: nat, n: nat): World
    decreases n
  {
    if n == 0 || !Enabled(w, Take(r)) then w else Taken(Step(w, Take(r)), r, n - 1)
  }

  /** A requestor that keeps reading has its text after exactly as many reads as there are pieces. */
  lemma {:induction false} ReadsDeliver(w: World, r: nat)
    requires Good(w) && Pushing(w, r)
    ensures var p := w.server.push.value;
      Taken(w, r, 1 + Reads(|p.data| - p.at)).requestors == w.requestors[r := Done(p.data, p.data)]
    decreases |w.server.push.value.data| - w.server.push.value.at
  {
    hide Good;
    var p := w.server.push.value;
    var left := |p.data| - p.at;
    PushingReads(w, r);
    StepGood(w, Take(r));
    var v := Step(w, Take(r));
    if left == 0 {
      LastRead(w, r);
    } else {
      PieceRead(w, r);
      ReadsDeliver(v, r);
      assert Taken(w, r, 1 + Reads(left)) == Taken(v, r, Reads(left));
      assert Taken(v, r, Reads(left)).requestors == v.requestors[r := Done(p.data, p.data)];
    }
  }

  lemma PushingReads(w: World, r: nat)
    requires Good(w) && Pushing(w, r)
    ensures w.server.push.value.at <= |w.server.push.value.data| && Enabled(w, Take(r))
  {
    assert Flows(w, r);
  }

  lemma PieceRead(w: World, r: nat)
    requires Good(w) && Pushing(w, r) && Enabled(w, Take(r))
    requires w.server.push.value.at < |w.server.push.value.data|
    ensures var v := Step(w, Take(r));
      var p := w.server.push.value;
      && Pushing(v, r) && v.server.push.value.data == p.data
      && v.server.push.value.at == p.at + Min(|p.data| - p.at, INCR_PIECE)
      && v.requestors[r := Done(p.data, p.data)] == w.requestors[r := Done(p.data, p.data)]
  {
    assert Flows(w, r);
  }

  lemma LastRead(w: World, r: nat)
    requires Good(w) && Pushing(w, r) && Enabled(w, Take(r))
    requires w.server.push.value.at == |w.server.push.value.data|
    ensures Taken(w, r, 2).requestors == w.requestors[r := Done(w.server.push.value.data, w.server.push.value.data)]
  {
    assert Flows(w, r);
    var p := w.server.push.value;
    var q := w.requestors[r];
    var v := Step(w, Take(r));
    assert p.data[..p.at] == p.data && p.data[p.at..p.at] == [];
    assert v.server.push.None? && v.server.props[r] == Piece([]);
    assert v.requestors[r] == Reading(p.data, p.data, true) by {
      if w.server.props[r].Size? { assert q.got == p.data; }
    }
    assert p.data + [] == p.data;
    assert Taken(v, r, 1) == Taken(Step(v, Take(r)), r, 0);
  }

  /**
   A transfer comes to an end before its time exactly when another requestor
   asks for a text of more than a piece ten seconds or more after it began,
   whether or not the first is still reading.
   */
  lemma CutShort(w: World, e: Event, r: nat)
    requires Good(w) && Enabled(w, e) && Pushing(w, r)
    ensures !Pushing(Step(w, e), r) <==>
      || (e == Take(r) && w.server.push.value.at == |w.server.push.value.data|)
      || (e.Ask? && Textual(e.target) && w.server.clip.Some?
          && |Rendered(w.server.clip.value, e.target)| > 262144
          && e.now - w.server.push.value.started >= 10)
  {
  }

  /** Reading still, with nothing to read and no transfer to it. */
  predicate Stranded(w: World, r: nat) {
    r in w.requestors && w.requestors[r].Reading? && r !in w.server.props && !Pushing(w, r)
  }

  /** There is no way on from there but to ask again. */
  lemma {:induction false} StrandedForGood(w: World, es: seq<Event>, r: nat)
    requires Good(w) && Runs(w, es) && Stranded(w, r)
    requires forall i :: 0 <= i < |es| && es[i].Ask? ==> es[i].r != r
    ensures Stranded(After(w, es), r) && After(w, es).requestors[r] == w.requestors[r]
    decreases |es|
  {
    if es != [] {
      StepGood(w, es[0]);
      StillStranded(w, es[0], r);
      StrandedForGood(Step(w, es[0]), es[1..], r);
    }
  }

  lemma StillStranded(w: World, e: Event, r: nat)
    requires Enabled(w, e) && Stranded(w, r) && (e.Ask? ==> e.r != r) && Good(w)
    ensures Stranded(Step(w, e), r) && Step(w, e).requestors[r] == w.requestors[r]
  {
  }

  /**
   A requestor that has read everything it was offered, each piece as soon as
   it was there, is cut off by another paste ten seconds after it asked: it is
   left with the first piece of the text, and nothing more to read.
   */
  lemma ReaderCutOff(text: Text)
    requires |text| > INCR_PIECE
    ensures var es := [Copy(text), Ask(1, Utf8, 0), Take(1), Ask(2, Utf8, PUSH_SECONDS), Take(1)];
      && Runs(IDLE, es)
      && var w := After(IDLE, es);
         Stranded(w, 1) && w.requestors[1] == Reading(text, text[..INCR_PIECE], true)
  {
    var w1 := Step(IDLE, Copy(text));
    var w2 := Step(w1, Ask(1, Utf8, 0));
    var w3 := Step(w2, Take(1));
    var w4 := Step(w3, Ask(2, Utf8, PUSH_SECONDS));
    var w5 := Step(w4, Take(1));
    assert w3.requestors[1] == Reading(text, [], true);
    assert text[0..INCR_PIECE] == text[..INCR_PIECE] && [] + text[..INCR_PIECE] == text[..INCR_PIECE];
    RunsOn(w4, [Take(1)], w5);
    RunsOn(w3, [Ask(2, Utf8, PUSH_SECONDS), Take(1)], w5);
    RunsOn(w2, [Take(1), Ask(2, Utf8, PUSH_SECONDS), Take(1)], w5);
    RunsOn(w1, [Ask(1, Utf8, 0), Take(1), Ask(2, Utf8, PUSH_SECONDS), Take(1)], w5);
    RunsOn(IDLE, [Copy(text), Ask(1, Utf8, 0), Take(1), Ask(2, Utf8, PUSH_SECONDS), Take(1)], w5);
  }

  lemma RunsOn(w: World, es: seq<Event>, end: World)
    requires es != [] && Enabled(w, es[0]) && Runs(Step(w, es[0]), es[1..]) && After(Step(w, es[0]), es[1..]) == end
    ensures Runs(w, es) && After(w, es) == end
  {
  }

  /** Nothing else that happens, a new clipboard text least of all, touches a transfer. */
  lemma Undisturbed(w: World, e: Event, r: nat)
    requires Good(w) && Enabled(w, e) && Pushing(w, r) && Pushing(Step(w, e), r) && e != Take(r)
    ensures var v := Step(w, e);
      && v.server.push == w.server.push && r in w.server.props && r in v.server.props
      && v.server.props[r] == w.server.props[r]
      && r in v.requestors && v.requestors[r] == w.requestors[r]
  {
    assert Flows(w, r);
  }

  /* ---- The other direction: an owner's text comes in ---- */

  /** A selection on its way in; `text` is what the buffer holds. */
  datatype Pull = Pull(active: bool, incr: bool, latin1: bool, text: Text)

  const NO_PULL := Pull(false, false, false, [])

  datatype Inbox = Inbox(clip: Option<Text>, pull: Pull)

  function PullStart(x: Inbox, latin1: bool): Inbox {
    x.(pull := Pull(true, false, latin1, []))
  }

  function PullEnd(x: Inbox, ok: bool): Inbox {
    var text := x.pull.text;
    if !ok || text == [] then x.(pull := NO_PULL)
    else Inbox(Some(if x.pull.latin1 then ToUtf8(text) else text), NO_PULL)
  }

  /** What one request reads of a property, which it deletes whole. */
  function PullRead(x: Inbox, p: Option<Property>): Inbox {
    if p.None? || p.value.Words? then PullEnd(x, false)
    else if p.value.Size? then x.(pull := x.pull.(incr := true))
    else
      var value := First(p.value.bytes, READ_MAX);
      var text := x.pull.text + First(value, CLIP_MAX - Min(|x.pull.text|, CLIP_MAX));
      var y := x.(pull := x.pull.(text := text));
      if !x.pull.incr || value == [] then PullEnd(y, true) else y
  }

  /** The owner's answer to our request; none means it has no such form of it. */
  function Notified(x: Inbox, written: bool, p: Option<Property>): Inbox {
    if !x.pull.active then x
    else if !written then (if !x.pull.latin1 then PullStart(x, true) else PullEnd(x, false))
    else PullRead(x, p)
  }

  /** Something new in our property: it is read only in the middle of a transfer. */
  function NewValue(x: Inbox, p: Option<Property>): Inbox {
    if x.pull.active && x.pull.incr then PullRead(x, p) else x
  }

  /** Text from elsewhere: a selection on its way in is dropped. */
  function SetClipboard(x: Inbox, text: Text): Inbox {
    var y := x.(clip := Some(text));
    if x.pull.active then PullEnd(y, false) else y
  }

  /**
   What an answer from an owner does when it is no text: without the form we
   asked for we ask once more, for Latin-1, and then no more; what is not text
   ends it; either way the clipboard is as it was. Nothing is read that was not
   asked for, and pieces only of a transfer.
   */
  lemma NoText(x: Inbox, p: Option<Property>)
    ensures !x.pull.active ==> Notified(x, true, p) == x && Notified(x, false, p) == x && NewValue(x, p) == x
    ensures x.pull.active && !x.pull.latin1 ==> Notified(x, false, p) == x.(pull := Pull(true, false, true, []))
    ensures x.pull.active && x.pull.latin1 ==> Notified(x, false, p) == x.(pull := NO_PULL)
    ensures x.pull.active && (p.None? || p.value.Words?) ==> Notified(x, true, p) == x.(pull := NO_PULL)
    ensures !x.pull.incr ==> NewValue(x, p) == x
  {
  }

  function AllPieces(x: Inbox, pieces: seq<Text>): Inbox
    decreases |pieces|
  {
    if pieces == [] then x else AllPieces(NewValue(x, Some(Piece(pieces[0]))), pieces[1..])
  }

  lemma FirstOfFirst(a: Text, b: Text, n: nat, m: nat)
    requires n <= m
    ensures First(a, n) + First(First(b, m), n - |First(a, n)|) == First(a + b, n)
  {
  }

  lemma PieceAdds(x: Inbox, seen: Text, piece: Text)
    requires x.pull.active && x.pull.incr && x.pull.text == First(seen, CLIP_MAX) && piece != []
    ensures NewValue(x, Some(Piece(piece))) == x.(pull := x.pull.(text := First(seen + piece, CLIP_MAX)))
  {
    FirstOfFirst(seen, piece, CLIP_MAX, READ_MAX);
  }

  /** However an owner cuts its text, the beginning of it is kept, up to the limit. */
  lemma {:induction false} PiecesAdd(x: Inbox, seen: Text, pieces: seq<Text>)
    requires x.pull.active && x.pull.incr && x.pull.text == First(seen, CLIP_MAX)
    requires forall i :: 0 <= i < |pieces| ==> pieces[i] != []
    ensures AllPieces(x, pieces) == x.(pull := x.pull.(text := First(seen + Concat(pieces), CLIP_MAX)))
    decreases |pieces|
  {
    hide NewValue, First;
    if pieces == [] {
      assert seen + Concat(pieces) == seen;
    } else {
      PieceAdds(x, seen, pieces[0]);
      var y := NewValue(x, Some(Piece(pieces[0])));
      PiecesAdd(y, seen + pieces[0], pieces[1..]);
      assert (seen + pieces[0]) + Concat(pieces[1..]) == seen + Concat(pieces);
    }
  }

  /** The clipboard once a text has come in. */
  function Kept(before: Option<Text>, text: Text, latin1: bool): Option<Text> {
    if text == [] then before
    else Some(if latin1 then ToUtf8(First(text, 1048576)) else First(text, 1048576))
  }

  /**
   An owner's text arrives, cut up in whatever pieces the owner chose or
   whole: the first mebibyte of it become the clipboard; an empty
   text leaves what was there.
   */
  lemma PullDelivers(x: Inbox, latin1: bool, total: nat, pieces: seq<Text>)
    requires forall i :: 0 <= i < |pieces| ==> pieces[i] != []
    ensures var begun := Notified(PullStart(x, latin1), true, Some(Size(total)));
      NewValue(AllPieces(begun, pieces), Some(Piece([]))) == Inbox(Kept(x.clip, Concat(pieces), latin1), NO_PULL)
    ensures forall text ::
      Notified(PullStart(x, latin1), true, Some(Piece(text))) == Inbox(Kept(x.clip, text, latin1), NO_PULL)
  {
    var begun := Notified(PullStart(x, latin1), true, Some(Size(total)));
    PiecesAdd(begun, [], pieces);
    var all := Concat(pieces);
    assert [] + all == all;
    FirstOfFirst(all, [], CLIP_MAX, READ_MAX);
    assert all + [] == all;
    forall text
      ensures Notified(PullStart(x, latin1), true, Some(Piece(text))) == Inbox(Kept(x.clip, text, latin1), NO_PULL)
    {
      FirstOfFirst([], text, CLIP_MAX, READ_MAX);
      assert [] + text == text;
    }
  }

  /** Text set meanwhile stays, whatever the owner still writes. */
  lemma {:induction false} Superseded(x: Inbox, text: Text, pieces: seq<Text>)
    ensures AllPieces(SetClipboard(x, text), pieces) == SetClipboard(x, text)
    ensures SetClipboard(x, text).clip == Some(text)
    decreases |pieces|
  {
    if pieces != [] {
      assert !SetClipboard(x, text).pull.active;
      Superseded(x, text, pieces[1..]);
    }
  }

  /* ---- Both ends ---- */

  /** The pieces a transfer has yet to write. */
  function PiecesFrom(data: Text, at: nat): seq<Text>
    requires at <= |data|
    decreases |data| - at
  {
    var n := Min(|data| - at, INCR_PIECE);
    if n == 0 then [] else [data[at..at + n]] + PiecesFrom(data, at + n)
  }

  lemma {:induction false} PiecesAreData(data: Text, at: nat)
    requires at <= |data|
    ensures Concat(PiecesFrom(data, at)) == data[at..]
    ensures forall i :: 0 <= i < |PiecesFrom(data, at)| ==> 0 < |PiecesFrom(data, at)[i]| <= 262144
    ensures forall i :: 0 <= i < |PiecesFrom(data, at)| - 1 ==> |PiecesFrom(data, at)[i]| == 262144
    decreases |data| - at
  {
    var n := Min(|data| - at, INCR_PIECE);
    if n != 0 {
      PiecesAreData(data, at + n);
      assert data[at..] == data[at..at + n] + data[at + n..];
      assert ([data[at..at + n]] + PiecesFrom(data, at + n))[1..] == PiecesFrom(data, at + n);
    }
  }

  /** What a transfer writes next is the next of its pieces, or the empty one. */
  lemma WritesPieces(x: Server)
    requires x.push.Some? && x.push.value.at <= |x.push.value.data|
    ensures var p := x.push.value;
      var y := PushPiece(x);
      var left := PiecesFrom(p.data, p.at);
      && y.props == x.props[p.requestor := Piece(if left == [] then [] else left[0])]
      && (left == [] <==> y.push.None?)
      && (left != [] ==>
            && y.push == Some(p.(at := p.at + |left[0]|))
            && PiecesFrom(p.data, p.at + |left[0]|) == left[1..])
  {
    var p := x.push.value;
    var n := Min(|p.data| - p.at, INCR_PIECE);
    if n != 0 { assert ([p.data[p.at..p.at + n]] + PiecesFrom(p.data, p.at + n))[1..] == PiecesFrom(p.data, p.at + n); }
    assert p.data[p.at..p.at] == [];
  }

  /** Text pushed out of one such clipboard and pulled into another arrives, up to the limit. */
  lemma PushedPulled(clip: Text, target: Target, x: Inbox)
    requires Textual(target) && |Rendered(clip, target)| > INCR_PIECE
    ensures var data := Rendered(clip, target);
      var begun := Notified(PullStart(x, target == Latin), true, Some(Size(|data|)));
      NewValue(AllPieces(begun, PiecesFrom(data, 0)), Some(Piece([]))).clip ==
      Some(if target == Latin then ToUtf8(First(data, 1048576)) else First(data, 1048576))
  {
    var data := Rendered(clip, target);
    PiecesAreData(data, 0);
    PullDelivers(x, target == Latin, |data|, PiecesFrom(data, 0));
    assert data[0..] == data;
  }
}
