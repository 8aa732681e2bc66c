/**
 The channels of a browser connection, server/src/session.ts: opened by the
 client, awaited from a service, closed by either side or by the loss of the
 socket, in any order. A channel object is named by the number of its opening.
 */
module Channels {
  import SessionSteps

  /** What stands under an id: the reservation of an opening, or the channel it returned. */
  datatype Slot = Reserved(opening: nat) | Live(channel: nat)

  /** A call of `onClose`. */
  datatype Closing = Closing(channel: nat, lost: bool)

  /** `doomed` is what teardown has still to close; `returned` and `closings` are what has happened so far. */
  datatype Table = Table(
    closed: bool,
    slots: map<nat, Slot>,
    awaited: map<nat, nat>,
    next: nat,
    doomed: seq<nat>,
    returned: set<nat>,
    closings: seq<Closing>)

  const NONE := Table(false, map[], map[], 0, [], {}, [])

  datatype Event =
    | Open(id: nat, known: bool)
    | Returns(opening: nat, throws: bool)
    | Rejects(opening: nat)
    | Close(id: nat)
    | Dispose(order: seq<nat>)
    | DisposeNext

  /** Removing what stands under an id, without a word to it. */
  function Delete(t: Table, id: nat): Table {
    t.(slots := t.slots - {id})
  }

  function CloseAt(t: Table, id: nat, lost: bool): Table {
    if id !in t.slots then t
    else
      var gone := Delete(t, id);
      if t.slots[id].Live? then gone.(closings := t.closings + [Closing(t.slots[id].channel, lost)]) else gone
  }

  /** An `open` request, up to the point where the opener is awaited. */
  function OpenChannel(t: Table, id: nat, known: bool): Table {
    if id in t.slots || !known then t
    else t.(slots := t.slots[id := Reserved(t.next)], awaited := t.awaited[t.next := id], next := t.next + 1)
  }

  /**
   The opener's promise is kept. `throws` says whether what comes of it throws:
   for a channel that is too late its `onClose`, else the telling of the client
   that it is open, which fails if its `info` cannot be put in a message. Either
   is caught as a failed opening is.
   */
  function OpenReturns(t: Table, k: nat, throws: bool): Table
    requires k in t.awaited
  {
    var id := t.awaited[k];
    var back := t.(awaited := t.awaited - {k}, returned := t.returned + {k});
    if t.closed || id !in t.slots || t.slots[id] != Reserved(k) then
      var told := back.(closings := t.closings + [Closing(k, t.closed)]);
      if throws then Delete(told, id) else told
    else
      var live := back.(slots := t.slots[id := Live(k)]);
      if throws then Delete(live, id) else live
  }

  function OpenRejects(t: Table, k: nat): Table
    requires k in t.awaited
  {
    Delete(t.(awaited := t.awaited - {k}), t.awaited[k])
  }

  predicate Lists(order: seq<nat>, slots: map<nat, Slot>) {
    (set id | id in order) == slots.Keys
  }

  predicate Enabled(t: Table, e: Event) {
    match e
    case Returns(k, _) => k in t.awaited
    case Rejects(k) => k in t.awaited
    case Dispose(order) => !t.closed && Lists(order, t.slots)
    case DisposeNext => t.doomed != []
    case _ => true
  }

  function Step(t: Table, e: Event): Table
    requires Enabled(t, e)
  {
    match e
    case Open(id, known) => OpenChannel(t, id, known)
    case Returns(k, throws) => OpenReturns(t, k, throws)
    case Rejects(k) => OpenRejects(t, k)
    case Close(id) => CloseAt(t, id, false)
    case Dispose(order) => t.(closed := true, doomed := order)
    case DisposeNext => CloseAt(t, t.doomed[0], true).(doomed := t.doomed[1..])
  }

  ghost predicate Runs(t: Table, es: seq<Event>)
    decreases |es|
  {
    es == [] || (Enabled(t, es[0]) && Runs(Step(t, es[0]), es[1..]))
  }

  ghost function After(t: Table, es: seq<Event>): Table
    requires Runs(t, es)
    decreases |es|
  {
    if es == [] then t else After(Step(t, es[0]), es[1..])
  }

  /* ---- The source's own variables ---- */

  /** Teardown to its end, nothing coming in between. */
  function Drained(t: Table): Table
    decreases |t.doomed|
  {
    if t.doomed == [] then t else Drained(Step(t, DisposeNext))
  }

  class Registry {
    var closed: bool
    var channels: map<nat, Slot>
    var awaited: map<nat, nat>
    var next: nat
    var doomed: seq<nat>
    ghost var returned: set<nat>
    var closings: seq<Closing>

    ghost function Shown(): Table
      reads this
    {
      Table(closed, channels, awaited, next, doomed, returned, closings)
    }

    constructor ()
      ensures Shown() == NONE
    {
      closed, channels, awaited, next, doomed := false, map[], map[], 0, [];
      returned, closings := {}, [];
    }

    method HandleOpen(id: nat, known: bool)
      modifies this
      ensures Shown() == OpenChannel(old(Shown()), id, known)
    {
      if id in channels { return; }
      if !known {
        channels := channels - {id};
        return;
      }
      channels := channels[id := Reserved(next)];
      awaited := awaited[next := id];
      next := next + 1;
    }

    method OpenerReturned(opening: nat, throws: bool)
      requires opening in awaited
      modifies this
      ensures Shown() == OpenReturns(old(Shown()), opening, throws)
    {
      var id := awaited[opening];
      awaited, returned := awaited - {opening}, returned + {opening};
      if closed || id !in channels || channels[id] != Reserved(opening) {
        closings := closings + [Closing(opening, closed)];
        if throws { channels := channels - {id}; }
        return;
      }
      channels := channels[id := Live(opening)];
      if throws { channels := channels - {id}; }
    }

    method OpenerRejected(opening: nat)
      requires opening in awaited
      modifies this
      ensures Shown() == OpenRejects(old(Shown()), opening)
    {
      channels := channels - {awaited[opening]};
      awaited := awaited - {opening};
    }

    method CloseChannel(id: nat, lost: bool)
      modifies `channels, `closings
      ensures Shown() == CloseAt(old(Shown()), id, lost)
    {
      if id !in channels { return; }
      var channel := channels[id];
      channels := channels - {id};
      if channel.Live? { closings := closings + [Closing(channel.channel, lost)]; }
    }

    method Dispose(order: seq<nat>)
      requires Enabled(Shown(), Event.Dispose(order)) || closed
      modifies this
      ensures old(closed) ==> Shown() == old(Shown())
      ensures !old(closed) ==> Shown() == Drained(Step(old(Shown()), Event.Dispose(order)))
    {
      if closed { return; }
      closed, doomed := true, order;
      while doomed != []
        invariant closed && Drained(Shown()) == Drained(Step(old(Shown()), Event.Dispose(order)))
        decreases |doomed|
      {
        CloseChannel(doomed[0], true);
        doomed := doomed[1..];
      }
    }
  }

  /* ---- How often a channel is told ---- */

  function Told(cs: seq<Closing>, k: nat): nat {
    if cs == [] then 0
    else Told(cs[..|cs| - 1], k) + (if cs[|cs| - 1].channel == k then 1 else 0)
  }

  lemma ToldOnce(cs: seq<Closing>, c: Closing, k: nat)
    ensures Told(cs + [c], k) == Told(cs, k) + (if c.channel == k then 1 else 0)
  {
    assert (cs + [c])[..|cs|] == cs;
  }

  ghost predicate Registered(t: Table, k: nat) {
    exists id :: id in t.slots && t.slots[id] == Live(k)
  }

  /** Returned, never told, and no longer where a closing could find it. */
  ghost predicate Forgotten(t: Table, k: nat) {
    k in t.returned && !Registered(t, k) && Told(t.closings, k) == 0
  }

  /**
   What every event keeps: names are fresh; what stands under an id is the one
   thing there; a channel is registered only while it has not been told; and
   after the socket's loss, only where teardown will come by.
   */
  ghost predicate Kept(t: Table) {
    && (forall k :: k in t.awaited || k in t.returned ==> k < t.next)
    && t.awaited.Keys !! t.returned
    && (forall id :: id in t.slots ==>
          match t.slots[id]
          case Reserved(k) => k < t.next
          case Live(k) => k in t.returned && Told(t.closings, k) == 0)
    && (forall i, j :: i in t.slots && j in t.slots && t.slots[i] == t.slots[j] ==> i == j)
    && (forall k :: Told(t.closings, k) <= (if k in t.returned then 1 else 0))
    && (forall i :: 0 <= i < |t.closings| && t.closings[i].lost ==> t.closed)
    && (t.closed ==> forall id :: id in t.slots && t.slots[id].Live? ==> id in t.doomed)
    && (!t.closed ==> t.doomed == [])
  }

  lemma CloseKeeps(t: Table, id: nat, lost: bool)
    requires Kept(t) && (lost ==> t.closed)
    ensures Kept(CloseAt(t, id, lost))
    ensures forall k :: Forgotten(CloseAt(t, id, lost), k) <==> Forgotten(t, k)
  {
    if id in t.slots {
      var u := CloseAt(t, id, lost);
      if t.slots[id].Live? {
        forall k ensures Told(u.closings, k) == Told(t.closings, k) + (if k == t.slots[id].channel then 1 else 0) {
          ToldOnce(t.closings, Closing(t.slots[id].channel, lost), k);
        }
      }
      StillRegistered(t, u, id);
    }
  }

  /** Taking one slot away unregisters only what was there. */
  lemma StillRegistered(t: Table, u: Table, id: nat)
    requires u.slots == t.slots - {id}
    requires forall i, j :: i in t.slots && j in t.slots && t.slots[i] == t.slots[j] ==> i == j
    ensures forall k :: Registered(u, k) <==> Registered(t, k) && !(id in t.slots && t.slots[id] == Live(k))
  {
    forall k ensures Registered(u, k) <==> Registered(t, k) && !(id in t.slots && t.slots[id] == Live(k)) {
      if Registered(t, k) {
        var i :| i in t.slots && t.slots[i] == Live(k);
        if i != id { assert i in u.slots && u.slots[i] == Live(k); }
      }
      if Registered(u, k) {
        var i :| i in u.slots && u.slots[i] == Live(k);
        assert i in t.slots && t.slots[i] == Live(k);
      }
    }
  }

  /**
   Whether an event takes channel `k` away without telling it: a failed
   opening, whose id has been opened again, or one that fails when the channel
   is there already.
   */
  predicate Drops(t: Table, e: Event, k: nat)
    requires Enabled(t, e)
  {
    match e
    case Rejects(o) => t.awaited[o] in t.slots && t.slots[t.awaited[o]] == Live(k)
    case Returns(o, throws) =>
      throws && t.awaited[o] in t.slots &&
      (t.slots[t.awaited[o]] == Live(k) || (o == k && !t.closed && t.slots[t.awaited[o]] == Reserved(o)))
    case _ => false
  }

  lemma DeleteKeeps(t: Table, id: nat)
    requires Kept(t)
    ensures Kept(Delete(t, id))
    ensures forall k :: Forgotten(Delete(t, id), k) <==> Forgotten(t, k) || (id in t.slots && t.slots[id] == Live(k))
  {
    StillRegistered(t, Delete(t, id), id);
  }

  /** An opener that returns too late has its channel told at once. */
  lemma LateKeeps(t: Table, o: nat)
    requires Kept(t) && o in t.awaited
    ensures var u := t.(awaited := t.awaited - {o}, returned := t.returned + {o},
                        closings := t.closings + [Closing(o, t.closed)]);
      && Kept(u) && forall k :: Forgotten(u, k) <==> Forgotten(t, k)
  {
    var u := t.(awaited := t.awaited - {o}, returned := t.returned + {o},
                closings := t.closings + [Closing(o, t.closed)]);
    forall k ensures Told(u.closings, k) == Told(t.closings, k) + (if k == o then 1 else 0) {
      ToldOnce(t.closings, Closing(o, t.closed), k);
    }
    SameRegistered(t, u);
    hide Told, Registered;
    assert Told(t.closings, o) == 0;
    assert forall i :: 0 <= i < |u.closings| ==>
      u.closings[i] == if i < |t.closings| then t.closings[i] else Closing(o, t.closed);
  }

  /** One that returns in time has it registered. */
  lemma RegisterKeeps(t: Table, o: nat)
    requires Kept(t) && o in t.awaited && !t.closed
    requires t.awaited[o] in t.slots && t.slots[t.awaited[o]] == Reserved(o)
    ensures var u := t.(awaited := t.awaited - {o}, returned := t.returned + {o},
                        slots := t.slots[t.awaited[o] := Live(o)]);
      && Kept(u) && forall k :: Forgotten(u, k) <==> Forgotten(t, k)
  {
    var u := t.(awaited := t.awaited - {o}, returned := t.returned + {o}, slots := t.slots[t.awaited[o] := Live(o)]);
    MoreRegistered(t, u, t.awaited[o], o);
    hide Told, Registered;
    assert Told(t.closings, o) == 0;
  }

  lemma ReturnKeeps(t: Table, o: nat)
    requires Kept(t) && o in t.awaited
    ensures Kept(OpenReturns(t, o, false))
    ensures forall k :: Forgotten(OpenReturns(t, o, false), k) <==> Forgotten(t, k)
  {
    hide Kept, Forgotten;
    var id := t.awaited[o];
    if t.closed || id !in t.slots || t.slots[id] != Reserved(o) {
      LateKeeps(t, o);
    } else {
      RegisterKeeps(t, o);
    }
  }

  lemma SameRegistered(t: Table, u: Table)
    requires t.slots == u.slots
    ensures forall k :: Registered(t, k) <==> Registered(u, k)
  {
  }

  lemma MoreRegistered(t: Table, u: Table, id: nat, o: nat)
    requires id in t.slots && t.slots[id].Reserved? && u.slots == t.slots[id := Live(o)]
    ensures forall k :: Registered(u, k) <==> Registered(t, k) || k == o
  {
    assert u.slots[id] == Live(o);
    forall k | Registered(t, k) ensures Registered(u, k) {
      var i :| i in t.slots && t.slots[i] == Live(k);
      assert i in u.slots && u.slots[i] == Live(k);
    }
    forall k | Registered(u, k) ensures Registered(t, k) || k == o {
      var i :| i in u.slots && u.slots[i] == Live(k);
      if i != id { assert i in t.slots && t.slots[i] == Live(k); }
    }
  }

  lemma OpenKeeps(t: Table, id: nat, known: bool)
    requires Kept(t)
    ensures Kept(OpenChannel(t, id, known))
    ensures forall k :: Forgotten(OpenChannel(t, id, known), k) <==> Forgotten(t, k)
  {
    var u := OpenChannel(t, id, known);
    if u != t {
      forall k ensures Registered(u, k) <==> Registered(t, k) {
        if Registered(t, k) {
          var i :| i in t.slots && t.slots[i] == Live(k);
          assert i in u.slots && u.slots[i] == Live(k);
        }
        if Registered(u, k) {
          var i :| i in u.slots && u.slots[i] == Live(k);
          assert i in t.slots && t.slots[i] == Live(k);
        }
      }
    }
  }

  /** Every event keeps the table in order, and forgets exactly the channels it drops. */
  lemma StepKeeps(t: Table, e: Event)
    requires Kept(t) && Enabled(t, e)
    ensures Kept(Step(t, e))
    ensures forall k :: Forgotten(Step(t, e), k) <==> Forgotten(t, k) || Drops(t, e, k)
  {
    hide Forgotten, Registered;
    match e {
      case Open(id, known) => OpenKeeps(t, id, known);
      case Returns(o, throws) =>
        ReturnKeeps(t, o);
        if throws { ThrowKeeps(t, o); }
      case Rejects(o) => RejectKeeps(t, o);
      case Close(id) => CloseKeeps(t, id, false);
      case Dispose(order) => DisposeKeeps(t, order);
      case DisposeNext => NextKeeps(t);
    }
  }

  lemma ThrowKeeps(t: Table, o: nat)
    requires Kept(t) && o in t.awaited
    ensures Kept(OpenReturns(t, o, true))
    ensures forall k :: Forgotten(OpenReturns(t, o, true), k) <==> Forgotten(t, k) || Drops(t, Returns(o, true), k)
  {
    var id := t.awaited[o];
    ReturnKeeps(t, o);
    var u := OpenReturns(t, o, false);
    if OpenReturns(t, o, true) != u {
      DeleteKeeps(u, id);
    }
  }

  lemma RejectKeeps(t: Table, o: nat)
    requires Kept(t) && o in t.awaited
    ensures Kept(OpenRejects(t, o))
    ensures forall k :: Forgotten(OpenRejects(t, o), k) <==> Forgotten(t, k) || Drops(t, Rejects(o), k)
  {
    var u := t.(awaited := t.awaited - {o});
    SameRegistered(t, u);
    DeleteKeeps(u, t.awaited[o]);
  }

  lemma DisposeKeeps(t: Table, order: seq<nat>)
    requires Kept(t) && Enabled(t, Dispose(order))
    ensures var u := Step(t, Dispose(order));
      && Kept(u) && forall k :: Forgotten(u, k) <==> Forgotten(t, k)
  {
    var u := Step(t, Dispose(order));
    SameRegistered(t, u);
    assert forall id :: id in t.slots ==> id in (set i | i in order);
  }

  lemma NextKeeps(t: Table)
    requires Kept(t) && t.doomed != []
    ensures var u := Step(t, DisposeNext);
      && Kept(u) && forall k :: Forgotten(u, k) <==> Forgotten(t, k)
  {
    var c := CloseAt(t, t.doomed[0], true);
    CloseKeeps(t, t.doomed[0], true);
    var u := c.(doomed := t.doomed[1..]);
    SameRegistered(c, u);
    assert t.doomed == [t.doomed[0]] + t.doomed[1..];
  }

  /** Teardown run to its end leaves no channel registered, and forgets none. */
  lemma {:induction false} DrainedTells(t: Table)
    requires Kept(t) && t.closed
    ensures var u := Drained(t);
      && Kept(u) && u.closed && u.doomed == []
      && forall k :: !Registered(u, k) && (Forgotten(u, k) <==> Forgotten(t, k))
    decreases |t.doomed|
  {
    if t.doomed != [] {
      NextKeeps(t);
      DrainedTells(Step(t, DisposeNext));
    }
  }

  /* ---- The same channels as the binary half sees ---- */

  lemma {:induction false} DrainedSlots(t: Table)
    ensures Drained(t).slots.Keys == t.slots.Keys - (set id | id in t.doomed)
    decreases |t.doomed|
  {
    if t.doomed != [] {
      var u := Step(t, DisposeNext);
      DrainedSlots(u);
      assert t.doomed == [t.doomed[0]] + u.doomed;
      assert u.slots.Keys == t.slots.Keys - {t.doomed[0]};
    }
  }

  /** The ids taken here are the set of channels that decides what becomes of queued payloads. */
  lemma SameChannels(t: Table, s: SessionSteps.State, id: nat, known: bool)
    requires t.slots.Keys == s.channels && t.closed == s.closed && SessionSteps.Sound(s)
    ensures OpenChannel(t, id, known).slots.Keys == SessionSteps.OpenArrives(s, id, known).channels
    ensures forall k :: k in t.awaited ==>
      OpenRejects(t, k).slots.Keys == SessionSteps.OpenFails(s, t.awaited[k]).channels
    ensures CloseAt(t, id, false).slots.Keys == SessionSteps.CloseChannel(s, id).channels
    ensures forall order :: Enabled(t, Dispose(order)) ==>
      Drained(Step(t, Dispose(order))).slots.Keys == SessionSteps.Dispose(s).channels
  {
    hide Drained, SessionSteps.Purge, SessionSteps.Tell, SessionSteps.Sound;
    SessionChannels(s, id, known);
    hide SessionSteps.OpenArrives, SessionSteps.OpenFails, SessionSteps.CloseChannel, SessionSteps.Dispose;
    forall k | k in t.awaited
      ensures OpenRejects(t, k).slots.Keys == SessionSteps.OpenFails(s, t.awaited[k]).channels
    {
      SessionFails(s, t.awaited[k]);
    }
    forall order | Enabled(t, Dispose(order))
      ensures Drained(Step(t, Dispose(order))).slots.Keys == SessionSteps.Dispose(s).channels
    {
      DisposedSlots(t, order);
    }
  }

  /** What each event of the binary half leaves open. */
  lemma SessionChannels(s: SessionSteps.State, id: nat, known: bool)
    requires SessionSteps.Sound(s)
    ensures SessionSteps.OpenArrives(s, id, known).channels == if known then s.channels + {id} else s.channels
    ensures SessionSteps.CloseChannel(s, id).channels == s.channels - {id}
    ensures SessionSteps.Dispose(s).channels == if s.closed then s.channels else {}
  {
    hide SessionSteps.Purge;
  }

  lemma SessionFails(s: SessionSteps.State, id: nat)
    requires SessionSteps.Sound(s)
    ensures SessionSteps.OpenFails(s, id).channels == s.channels - {id}
  {
  }

  lemma DisposedSlots(t: Table, order: seq<nat>)
    requires Enabled(t, Dispose(order))
    ensures Drained(Step(t, Dispose(order))).slots.Keys == {}
  {
    DrainedSlots(Step(t, Dispose(order)));
  }

  /* ---- Over whole sessions ---- */

  ghost predicate DropsSome(t: Table, es: seq<Event>, k: nat)
    requires Runs(t, es)
    decreases |es|
  {
    es != [] && (Drops(t, es[0], k) || DropsSome(Step(t, es[0]), es[1..], k))
  }

  lemma {:induction false} AfterKeeps(t: Table, es: seq<Event>)
    requires Kept(t) && Runs(t, es)
    ensures Kept(After(t, es))
    ensures forall k :: Forgotten(After(t, es), k) <==> Forgotten(t, k) || DropsSome(t, es, k)
    decreases |es|
  {
    hide Kept, Forgotten, Step, Enabled;
    if es != [] {
      StepKeeps(t, es[0]);
      AfterKeeps(Step(t, es[0]), es[1..]);
    }
  }

  lemma NoneKept()
    ensures Kept(NONE) && forall k :: !Forgotten(NONE, k)
  {
  }

  /**
   Whatever the order of events: a channel that an opener returned is either
   registered and has been told nothing, or has been told exactly once; it is
   forgotten exactly if a failed opening of an earlier life of its id came by.
   Once the socket is gone and teardown is through, none is left registered.
   */
  lemma ToldExactlyOnce(es: seq<Event>, k: nat)
    requires Runs(NONE, es)
    ensures var t := After(NONE, es);
      && Told(t.closings, k) <= 1
      && (Told(t.closings, k) == 1 ==> k in t.returned && !Registered(t, k))
      && (k in t.returned ==> (Told(t.closings, k) == 0 <==> Registered(t, k) || DropsSome(NONE, es, k)))
      && (t.closed && t.doomed == [] ==> !Registered(t, k))
  {
    NoneKept();
    AfterKeeps(NONE, es);
    var t := After(NONE, es);
    assert Forgotten(t, k) <==> DropsSome(NONE, es, k);
  }

  /** A channel is told it was lost only once the socket is gone. */
  lemma LostMeansGone(es: seq<Event>)
    requires Runs(NONE, es)
    ensures var t := After(NONE, es);
      forall i :: 0 <= i < |t.closings| && t.closings[i].lost ==> t.closed
  {
    NoneKept();
    AfterKeeps(NONE, es);
  }

  /* ---- Which closings are losses ---- */

  /** The channel an event tells that it is closed, if any, and whether as lost. */
  ghost predicate Tells(t: Table, e: Event, c: Closing)
    requires Enabled(t, e)
  {
    match e
    case Close(id) => id in t.slots && t.slots[id] == Live(c.channel) && !c.lost
    case DisposeNext => t.doomed[0] in t.slots && t.slots[t.doomed[0]] == Live(c.channel) && c.lost
    case Returns(k, _) =>
      && c == Closing(k, t.closed)
      && (t.closed || t.awaited[k] !in t.slots || t.slots[t.awaited[k]] != Reserved(k))
    case _ => false
  }

  lemma StepTells(t: Table, e: Event)
    requires Enabled(t, e)
    ensures var cs := Step(t, e).closings;
      || (cs == t.closings && forall c :: !Tells(t, e, c))
      || (|cs| == |t.closings| + 1 && cs[..|t.closings|] == t.closings && Tells(t, e, cs[|t.closings|]))
    ensures Step(t, e).closed <==> t.closed || e.Dispose?
  {
  }

  lemma {:induction false} RunsPrefix(t: Table, es: seq<Event>, i: nat)
    requires Runs(t, es) && i <= |es|
    ensures Runs(t, es[..i]) && Runs(After(t, es[..i]), es[i..])
    ensures After(After(t, es[..i]), es[i..]) == After(t, es)
    ensures i < |es| ==> Enabled(After(t, es[..i]), es[i]) && Runs(t, es[..i + 1])
                         && After(t, es[..i + 1]) == Step(After(t, es[..i]), es[i])
    decreases |es|
  {
    hide Enabled, Step;
    if i == 0 {
      assert es[..0] == [] && es[0..] == es;
      if es != [] { assert es[..1] == [es[0]] && es[..1][1..] == []; }
    } else {
      RunsPrefix(Step(t, es[0]), es[1..], i - 1);
      assert es[..i][1..] == es[1..][..i - 1] && es[i..] == es[1..][i - 1..];
      if i < |es| { assert es[..i + 1][1..] == es[1..][..i]; }
    }
  }

  /** Closing number `j` came of event number `i`. */
  ghost predicate CameOf(es: seq<Event>, j: nat, i: nat)
    requires Runs(NONE, es) && j < |After(NONE, es).closings|
  {
    && i < |es| && Runs(NONE, es[..i])
    && var t := After(NONE, es[..i]);
       && Enabled(t, es[i]) && |t.closings| == j
       && Tells(t, es[i], After(NONE, es).closings[j])
       && (t.closed <==> exists h :: 0 <= h < i && es[h].Dispose?)
  }

  lemma {:induction false} ClosedBy(es: seq<Event>)
    requires Runs(NONE, es)
    ensures After(NONE, es).closed <==> exists h :: 0 <= h < |es| && es[h].Dispose?
    decreases |es|
  {
    if es != [] {
      var n := |es| - 1;
      RunsPrefix(NONE, es, n);
      ClosedBy(es[..n]);
      assert es[..n + 1] == es;
      StepTells(After(NONE, es[..n]), es[n]);
      hide Step, Enabled, Runs, After;
      if h :| 0 <= h < |es[..n]| && es[..n][h].Dispose? { assert es[h].Dispose?; }
      if h :| 0 <= h < |es| && es[h].Dispose? && h < n { assert es[..n][h].Dispose?; }
    }
  }

  /** Every closing of a run comes of one of its events. */
  lemma {:induction false} ClosingCame(es: seq<Event>, j: nat) returns (i: nat)
    requires Runs(NONE, es) && j < |After(NONE, es).closings|
    ensures CameOf(es, j, i)
    decreases |es|
  {
    var n := |es| - 1;
    RunsPrefix(NONE, es, n);
    assert es[..n + 1] == es;
    var t := After(NONE, es[..n]);
    StepTells(t, es[n]);
    if j < |t.closings| {
      i := ClosingCame(es[..n], j);
      assert es[..n][..i] == es[..i];
      assert After(NONE, es).closings[j] == t.closings[j];
      assert forall h :: 0 <= h < i ==> es[..n][h] == es[h];
    } else {
      i := n;
      ClosedBy(es[..n]);
      assert forall h :: 0 <= h < n ==> es[..n][h] == es[h];
    }
  }

  /**
   In every run, each closing says that the channel was lost if and only if it
   came of the teardown, or of an opener that returned after the socket's loss;
   not if the client or the service closed it, nor if its opening was overtaken.
   */
  lemma LostExactly(es: seq<Event>, j: nat) returns (i: nat)
    requires Runs(NONE, es) && j < |After(NONE, es).closings|
    ensures CameOf(es, j, i)
    ensures After(NONE, es).closings[j].lost <==>
      es[i].DisposeNext? || (es[i].Returns? && exists h :: 0 <= h < i && es[h].Dispose?)
  {
    i := ClosingCame(es, j);
  }

  /** The channels a client or a service could still close. */
  function Present(t: Table): set<nat> {
    set id | id in t.slots && t.slots[id].Live? :: t.slots[id].channel
  }

  /** Beyond `was`, exactly the channels in `gone` have been told, and each that it is lost. */
  predicate LosesExactly(was: seq<Closing>, all: seq<Closing>, gone: set<nat>) {
    && was <= all
    && (forall j :: |was| <= j < |all| ==> all[j].lost && all[j].channel in gone)
    && (forall k :: k in gone ==> Closing(k, true) in all[|was|..])
  }

  lemma LosesOneMore(was: seq<Closing>, k: nat, all: seq<Closing>, gone: set<nat>)
    requires LosesExactly(was + [Closing(k, true)], all, gone)
    ensures LosesExactly(was, all, gone + {k})
  {
    var more := was + [Closing(k, true)];
    assert all[..|more|] == more;
    assert all[|was|] == more[|was|];
    assert all[|was|..] == [Closing(k, true)] + all[|more|..];
  }

  /** Teardown run to its end tells every channel there is that it is lost, and nobody else anything. */
  lemma {:induction false} DrainedLost(t: Table)
    requires Kept(t) && t.closed
    ensures LosesExactly(t.closings, Drained(t).closings, Present(t))
    decreases |t.doomed|
  {
    if t.doomed != [] {
      NextKeeps(t);
      DrainedLost(Step(t, DisposeNext));
      var id := t.doomed[0];
      NextTells(t);
      if id in t.slots && t.slots[id].Live? {
        LosesOneMore(t.closings, t.slots[id].channel, Drained(t).closings, Present(Step(t, DisposeNext)));
      }
    }
  }

  lemma NextTells(t: Table)
    requires Kept(t) && t.doomed != []
    ensures var s, id := Step(t, DisposeNext), t.doomed[0];
      if id in t.slots && t.slots[id].Live?
      then s.closings == t.closings + [Closing(t.slots[id].channel, true)]
           && Present(t) == Present(s) + {t.slots[id].channel}
      else s.closings == t.closings && Present(t) == Present(s)
  {
    var s := Step(t, DisposeNext);
    PresentIs(t);
    PresentIs(s);
    StillRegistered(t, s, t.doomed[0]);
  }

  lemma PresentIs(t: Table)
    ensures forall k :: k in Present(t) <==> Registered(t, k)
  {
    forall k | Registered(t, k) ensures k in Present(t) {
      var id :| id in t.slots && t.slots[id] == Live(k);
      assert t.slots[id].channel == k;
    }
    forall k | k in Present(t) ensures Registered(t, k) {
      var id :| id in t.slots && t.slots[id].Live? && t.slots[id].channel == k;
      assert t.slots[id] == Live(k);
    }
  }

  /* ---- Ids that are not used again ---- */

  predicate FreshIds(es: seq<Event>, used: set<nat>)
    decreases |es|
  {
    if es == [] then true
    else if es[0].Open? then es[0].id !in used && FreshIds(es[1..], used + {es[0].id})
    else FreshIds(es[1..], used)
  }

  /** Under the id of an opening still awaited there is its own reservation, or nothing. */
  ghost predicate Own(t: Table, used: set<nat>) {
    && t.slots.Keys <= used
    && (forall k :: k in t.awaited ==> t.awaited[k] in used && k < t.next)
    && (forall k, l :: k in t.awaited && l in t.awaited && t.awaited[k] == t.awaited[l] ==> k == l)
    && (forall k :: k in t.awaited && t.awaited[k] in t.slots ==> t.slots[t.awaited[k]] == Reserved(k))
  }

  lemma OwnDropsNothing(t: Table, used: set<nat>, e: Event, k: nat)
    requires Own(t, used) && Enabled(t, e)
    ensures e != Returns(k, true) ==> !Drops(t, e, k)
  {
  }

  /** Nothing opened and nothing registered. */
  lemma OwnFewer(t: Table, u: Table, used: set<nat>)
    requires Own(t, used) && u.next == t.next
    requires forall id :: id in u.slots ==> id in t.slots && u.slots[id] == t.slots[id]
    requires forall k :: k in u.awaited ==> k in t.awaited && u.awaited[k] == t.awaited[k]
    ensures Own(u, used)
  {
  }

  lemma OwnOpened(t: Table, used: set<nat>, id: nat, known: bool)
    requires Own(t, used) && id !in used
    ensures Own(OpenChannel(t, id, known), used + {id})
  {
    assert id !in t.slots.Keys;
  }

  lemma OwnReturned(t: Table, used: set<nat>, o: nat, throws: bool)
    requires Own(t, used) && o in t.awaited
    ensures Own(OpenReturns(t, o, throws), used)
  {
    var u := OpenReturns(t, o, throws);
    if t.awaited[o] !in u.slots || u.slots == t.slots {
      OwnFewer(t, u, used);
    }
  }

  lemma OwnKept(t: Table, used: set<nat>, e: Event)
    requires Own(t, used) && Enabled(t, e) && (e.Open? ==> e.id !in used)
    ensures Own(Step(t, e), if e.Open? then used + {e.id} else used)
  {
    hide Own;
    match e {
      case Open(id, known) => OwnOpened(t, used, id, known);
      case Returns(o, throws) => OwnReturned(t, used, o, throws);
      case Rejects(o) => OwnFewer(t, Step(t, e), used);
      case Close(id) => OwnFewer(t, Step(t, e), used);
      case Dispose(_) => OwnFewer(t, Step(t, e), used);
      case DisposeNext => OwnFewer(t, Step(t, e), used);
    }
  }

  lemma {:induction false} FreshDropsNothing(t: Table, used: set<nat>, es: seq<Event>, k: nat)
    requires Own(t, used) && Runs(t, es) && FreshIds(es, used) && Returns(k, true) !in es
    ensures !DropsSome(t, es, k)
    decreases |es|
  {
    hide Own, Step, Drops, Enabled;
    if es != [] {
      OwnDropsNothing(t, used, es[0], k);
      OwnKept(t, used, es[0]);
      FreshDropsNothing(Step(t, es[0]), if es[0].Open? then used + {es[0].id} else used, es[1..], k);
    }
  }

  /**
   With ids never used twice, every channel returned has been told exactly once
   when the session is over, unless its own opening failed after all.
   */
  lemma FreshAllTold(es: seq<Event>, k: nat)
    requires Runs(NONE, es) && FreshIds(es, {}) && Returns(k, true) !in es
    ensures var t := After(NONE, es);
      t.closed && t.doomed == [] && k in t.returned ==> Told(t.closings, k) == 1
  {
    ToldExactlyOnce(es, k);
    FreshDropsNothing(NONE, {}, es, k);
  }

  /**
   Reusing an id breaks it: opened, closed and opened again while the first
   opener was still busy, an id loses its second channel when the first opener
   fails after all.
   */
  lemma ReuseForgets(id: nat)
    ensures var es := [Open(id, true), Close(id), Open(id, true), Returns(1, false), Rejects(0), Dispose([])];
      && Runs(NONE, es)
      && var t := After(NONE, es);
         t.closed && t.doomed == [] && t.returned == {1} && t.closings == []
  {
    var t1 := Step(NONE, Open(id, true));
    var t2 := Step(t1, Close(id));
    var t3 := Step(t2, Open(id, true));
    var t4 := Step(t3, Returns(1, false));
    var t5 := Step(t4, Rejects(0));
    assert t3.awaited == map[0 := id, 1 := id];
    assert t5.slots == map[];
    var es := [Open(id, true), Close(id), Open(id, true), Returns(1, false), Rejects(0), Dispose([])];
    var t6 := Step(t5, Dispose([]));
    RunsOn(t5, [Dispose([])], t6);
    RunsOn(t4, [Rejects(0), Dispose([])], t6);
    RunsOn(t3, [Returns(1, false), Rejects(0), Dispose([])], t6);
    RunsOn(t2, [Open(id, true), Returns(1, false), Rejects(0), Dispose([])], t6);
    RunsOn(t1, [Close(id), Open(id, true), Returns(1, false), Rejects(0), Dispose([])], t6);
    RunsOn(NONE, es, t6);
  }

  /** As does a channel whose opening cannot be told to the client: it is dropped when it is there already. */
  lemma UntellableForgets(id: nat)
    ensures var es := [Open(id, true), Returns(0, true), Dispose([])];
      && Runs(NONE, es) && FreshIds(es, {})
      && var t := After(NONE, es);
         t.closed && t.doomed == [] && t.returned == {0} && t.closings == []
  {
    var t1 := Step(NONE, Open(id, true));
    var t2 := Step(t1, Returns(0, true));
    var t3 := Step(t2, Dispose([]));
    assert t2.slots == map[];
    RunsOn(t2, [Dispose([])], t3);
    RunsOn(t1, [Returns(0, true), Dispose([])], t3);
    RunsOn(NONE, [Open(id, true), Returns(0, true), Dispose([])], t3);
  }

  lemma RunsOn(t: Table, es: seq<Event>, end: Table)
    requires es != [] && Enabled(t, es[0]) && Runs(Step(t, es[0]), es[1..]) && After(Step(t, es[0]), es[1..]) == end
    ensures Runs(t, es) && After(t, es) == end
  {
  }
}
