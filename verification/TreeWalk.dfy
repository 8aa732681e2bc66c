/**
 Summing a directory tree with a bounded number of directories in flight,
 server/src/services/fs.ts. The outcome of every file system call is part of
 the tree; the order in which the calls finish is not.
 */
module TreeWalk {
  import opened Bytes

  const SCAN_CONCURRENCY: nat := 16
  const BLOCK: nat := 512

  type Path = seq<string>

  /** A directory: `lstat` fails, or only the listing does, or neither. */
  datatype Dir =
    | Gone
    | Closed(blocks: nat)
    | Listed(blocks: nat, entries: seq<Entry>)

  /** What a listing names: directories, and all else with what `lstat` says of it. */
  datatype Entry = Folder(name: string, dir: Dir) | Leaf(name: string, blocks: Option<nat>)

  datatype Totals = Totals(bytes: nat, entries: nat, errors: nat)

  /** A path as it was accounted for: with its blocks, or as an error. */
  datatype Touch = Counted(path: Path, blocks: nat) | Failed(path: Path)

  /** What some part of a walk amounts to: totals, the paths behind them, and calls made. */
  datatype Work = Work(totals: Totals, touches: multiset<Touch>, calls: nat)

  const NOTHING := Work(Totals(0, 0, 0), multiset{}, 0)

  function Plus(a: Work, b: Work): Work {
    Work(Totals(a.totals.bytes + b.totals.bytes, a.totals.entries + b.totals.entries,
                a.totals.errors + b.totals.errors),
         a.touches + b.touches, a.calls + b.calls)
  }

  predicate AtMost(a: Work, b: Work) {
    && a.totals.bytes <= b.totals.bytes && a.totals.entries <= b.totals.entries && a.totals.errors <= b.totals.errors
    && a.touches <= b.touches && a.calls <= b.calls
  }

  function Count(path: Path, blocks: nat): Work {
    Work(Totals(blocks * BLOCK, 1, 0), multiset{Counted(path, blocks)}, 1)
  }

  function Fail(path: Path): Work {
    Work(Totals(0, 0, 1), multiset{Failed(path)}, 1)
  }

  const CALL := Work(Totals(0, 0, 0), multiset{}, 1)

  /* ---- The plain recursive sum ---- */

  function Sum(path: Path, dir: Dir): Work
    decreases dir, 0
  {
    match dir
    case Gone => Fail(path)
    case Closed(b) => Plus(Count(path, b), Fail(path))
    case Listed(b, es) => Plus(Count(path, b), Plus(CALL, SumAll(path, es)))
  }

  function SumAll(path: Path, es: seq<Entry>): Work
    decreases es, 1
  {
    if es == [] then NOTHING else Plus(SumEntry(path, es[0]), SumAll(path, es[1..]))
  }

  function SumEntry(path: Path, e: Entry): Work
    decreases e, 1
  {
    match e
    case Folder(name, dir) => Sum(path + [name], dir)
    case Leaf(name, b) => if b.Some? then Count(path + [name], b.value) else Fail(path + [name])
  }

  /* ---- The walk ---- */

  /** Which call of a directory is out: its `lstat`, its listing, or the `lstat` of the next entry. */
  datatype Phase = Stat | List | Each(rest: seq<Entry>)

  datatype Task = Task(path: Path, dir: Dir, phase: Phase)

  predicate Sound(t: Task) {
    match t.phase
    case Stat => true
    case List => !t.dir.Gone?
    case Each(rest) => rest != [] && rest[0].Leaf?
  }

  datatype Walk = Walk(queue: seq<Task>, active: seq<Task>, done: Work, resolved: bool)

  function FoldersAhead(path: Path, es: seq<Entry>): seq<Task> {
    if es == [] || es[0].Leaf? then []
    else [Task(path + [es[0].name], es[0].dir, Stat)] + FoldersAhead(path, es[1..])
  }

  /** The entries from the first that is awaited. */
  function FromLeaf(es: seq<Entry>): (r: seq<Entry>)
    ensures r != [] ==> r[0].Leaf?
    ensures |r| <= |es|
  {
    if es == [] || es[0].Leaf? then es else FromLeaf(es[1..])
  }

  /** A call has finished: what was added up, what was queued, and what is awaited next, if anything. */
  datatype Resumed = Resumed(added: Work, queued: seq<Task>, next: Option<Task>)

  function Along(path: Path, dir: Dir, added: Work, es: seq<Entry>): Resumed {
    var rest := FromLeaf(es);
    Resumed(added, FoldersAhead(path, es), if rest == [] then None else Some(Task(path, dir, Each(rest))))
  }

  function Resume(t: Task): Resumed
    requires Sound(t)
  {
    match t.phase
    case Stat =>
      if t.dir.Gone? then Resumed(Fail(t.path), [], None)
      else Resumed(Count(t.path, t.dir.blocks), [], Some(t.(phase := List)))
    case List =>
      if t.dir.Closed? then Resumed(Fail(t.path), [], None)
      else Along(t.path, t.dir, CALL, t.dir.entries)
    case Each(rest) =>
      var at := t.path + [rest[0].name];
      Along(t.path, t.dir, if rest[0].blocks.Some? then Count(at, rest[0].blocks.value) else Fail(at), rest[1..])
  }

  /** Directories taken from the end of the queue while there is room. */
  function Filled(w: Walk): Walk
    decreases |w.queue|
  {
    if |w.active| < SCAN_CONCURRENCY && |w.queue| > 0 then
      var last := |w.queue| - 1;
      Filled(w.(queue := w.queue[..last], active := w.active + [w.queue[last]]))
    else w
  }

  function Pumped(w: Walk, cancelled: bool): Walk {
    if cancelled then w.(queue := [], resolved := w.resolved || w.active == [])
    else
      var f := Filled(w);
      f.(resolved := f.resolved || (f.active == [] && f.queue == []))
  }

  function Begin(root: Path, dir: Dir, cancelled: bool): Walk {
    Pumped(Walk([Task(root, dir, Stat)], [], NOTHING, false), cancelled)
  }

  /** A directory is through; the next ones are started, or that was the last. */
  function Left(w: Walk, k: nat, cancelled: bool): Walk
    requires k < |w.active|
  {
    var left := w.(active := w.active[..k] + w.active[k + 1..]);
    if left.active == [] && left.queue == [] then left.(resolved := true) else Pumped(left, cancelled)
  }

  /** The call the `k`-th directory in flight is waiting for finishes. */
  function Finished(w: Walk, k: nat, cancelled: bool): Walk
    requires k < |w.active| && Sound(w.active[k])
  {
    var r := Resume(w.active[k]);
    var counted := w.(done := Plus(w.done, r.added), queue := w.queue + r.queued);
    if r.next.Some? then counted.(active := w.active[k := r.next.value]) else Left(counted, k, cancelled)
  }

  /* ---- What is pending ---- */

  function TaskWork(t: Task): Work
  {
    match t.phase
    case Stat => Sum(t.path, t.dir)
    case List =>
      (match t.dir
       case Gone => NOTHING
       case Closed(_) => Fail(t.path)
       case Listed(_, es) => Plus(CALL, SumAll(t.path, es)))
    case Each(rest) => SumAll(t.path, rest)
  }

  function TasksWork(ts: seq<Task>): Work {
    if ts == [] then NOTHING else Plus(TaskWork(ts[0]), TasksWork(ts[1..]))
  }

  function Pending(w: Walk): Work {
    Plus(TasksWork(w.queue), TasksWork(w.active))
  }

  lemma PlusGroups(a: Work, b: Work, c: Work)
    ensures Plus(a, Plus(b, c)) == Plus(Plus(a, b), c)
  {
    assert a.touches + (b.touches + c.touches) == (a.touches + b.touches) + c.touches;
  }

  lemma PlusSwaps(a: Work, b: Work)
    ensures Plus(a, b) == Plus(b, a)
  {
    assert a.touches + b.touches == b.touches + a.touches;
  }

  lemma PlusNothing(a: Work)
    ensures Plus(a, NOTHING) == a && Plus(NOTHING, a) == a
  {
    assert a.touches + multiset{} == a.touches && multiset{} + a.touches == a.touches;
  }

  lemma {:induction false} TasksSplit(a: seq<Task>, b: seq<Task>)
    ensures TasksWork(a + b) == Plus(TasksWork(a), TasksWork(b))
  {
    if a == [] {
      assert a + b == b;
      PlusNothing(TasksWork(b));
    } else {
      assert (a + b)[1..] == a[1..] + b;
      TasksSplit(a[1..], b);
      PlusGroups(TaskWork(a[0]), TasksWork(a[1..]), TasksWork(b));
    }
  }

  lemma TasksOne(t: Task)
    ensures TasksWork([t]) == TaskWork(t)
  {
    assert [t][1..] == [];
    PlusNothing(TaskWork(t));
  }

  function NextWork(next: Option<Task>): Work {
    if next.Some? then TaskWork(next.value) else NOTHING
  }

  /** Queuing the folders passed leaves the rest of a listing as much work as it was. */
  lemma {:induction false} AlongKeeps(path: Path, dir: Dir, added: Work, es: seq<Entry>)
    ensures var r := Along(path, dir, added, es);
      Plus(TasksWork(r.queued), NextWork(r.next)) == SumAll(path, es)
    decreases |es|
  {
    hide Plus;
    if es == [] || es[0].Leaf? {
      PlusNothing(SumAll(path, es));
    } else {
      AlongKeeps(path, dir, added, es[1..]);
      var r := Along(path, dir, added, es[1..]);
      var t := Task(path + [es[0].name], es[0].dir, Stat);
      assert ([t] + r.queued)[1..] == r.queued;
      PlusGroups(TaskWork(t), TasksWork(r.queued), NextWork(r.next));
    }
  }

  /** A call that finishes does one call's worth of its task's work, and leaves the rest. */
  lemma ResumeKeeps(t: Task)
    requires Sound(t)
    ensures var r := Resume(t);
      && Plus(r.added, Plus(TasksWork(r.queued), NextWork(r.next))) == TaskWork(t)
      && r.added.calls == 1
      && (r.next.Some? ==> Sound(r.next.value)) && forall i :: 0 <= i < |r.queued| ==> Sound(r.queued[i])
  {
    hide Plus;
    var r := Resume(t);
    match t.phase {
      case Stat =>
        PlusNothing(NextWork(r.next));
        PlusNothing(r.added);
      case List =>
        if t.dir.Closed? {
          PlusNothing(NOTHING);
          PlusNothing(r.added);
        } else {
          AlongKeeps(t.path, t.dir, CALL, t.dir.entries);
          FoldersSound(t.path, t.dir.entries);
        }
      case Each(rest) =>
        AlongKeeps(t.path, t.dir, SumEntry(t.path, rest[0]), rest[1..]);
        FoldersSound(t.path, rest[1..]);
    }
  }

  lemma {:induction false} FoldersSound(path: Path, es: seq<Entry>)
    ensures forall i :: 0 <= i < |FoldersAhead(path, es)| ==> Sound(FoldersAhead(path, es)[i])
  {
    if es != [] && !es[0].Leaf? {
      FoldersSound(path, es[1..]);
    }
  }

  /* ---- One step ---- */

  ghost predicate AllSound(ts: seq<Task>) {
    forall i :: 0 <= i < |ts| ==> Sound(ts[i])
  }

  /** Never more in flight than the bound, and something in flight exactly until the walk resolves. */
  ghost predicate Fine(w: Walk) {
    && AllSound(w.queue) && AllSound(w.active)
    && |w.active| <= SCAN_CONCURRENCY
    && (w.resolved <==> w.active == [])
    && (w.active == [] ==> w.queue == [])
  }

  /** Done and still to do. */
  function Whole(w: Walk): Work {
    Plus(w.done, Pending(w))
  }

  lemma {:induction false} FilledKeeps(w: Walk)
    requires AllSound(w.queue) && AllSound(w.active) && |w.active| <= SCAN_CONCURRENCY
    ensures var f := Filled(w);
      && AllSound(f.queue) && AllSound(f.active) && |f.active| <= SCAN_CONCURRENCY
      && Pending(f) == Pending(w) && f.done == w.done && f.resolved == w.resolved
      && (f.active == [] ==> f.queue == [] && w.active == [])
    decreases |w.queue|
  {
    hide Plus, TasksWork;
    if |w.active| < SCAN_CONCURRENCY && |w.queue| > 0 {
      var last := |w.queue| - 1;
      var rest, t := w.queue[..last], w.queue[last];
      FilledKeeps(w.(queue := rest, active := w.active + [t]));
      assert w.queue == rest + [t];
      TasksSplit(rest, [t]);
      TasksSplit(w.active, [t]);
      PlusSwaps(TasksWork(w.active), TasksWork([t]));
      PlusGroups(TasksWork(rest), TasksWork([t]), TasksWork(w.active));
    }
  }

  lemma AtMostSelf(a: Work)
    ensures AtMost(a, a)
  {
  }

  lemma Dropped(a: Work, b: Work, c: Work)
    ensures AtMost(Plus(a, Plus(NOTHING, c)), Plus(a, Plus(b, c)))
  {
    assert a.touches + (multiset{} + c.touches) <= a.touches + (b.touches + c.touches);
  }

  lemma AtMostThrough(a: Work, b: Work, c: Work)
    requires AtMost(a, b) && AtMost(b, c)
    ensures AtMost(a, c)
  {
  }

  lemma PumpedKeeps(w: Walk, cancelled: bool)
    requires AllSound(w.queue) && AllSound(w.active) && |w.active| <= SCAN_CONCURRENCY && !w.resolved
    ensures var p := Pumped(w, cancelled);
      && Fine(p) && p.done == w.done
      && AtMost(Whole(p), Whole(w)) && (!cancelled ==> Whole(p) == Whole(w))
  {
    hide Plus, AtMost, Filled;
    if cancelled {
      Dropped(w.done, TasksWork(w.queue), TasksWork(w.active));
    } else {
      FilledKeeps(w);
      AtMostSelf(Whole(w));
    }
  }

  /** The work of one task among those in flight. */
  lemma OneOf(ts: seq<Task>, k: nat, with: seq<Task>)
    requires k < |ts|
    ensures TasksWork(ts) == Plus(TaskWork(ts[k]), TasksWork(ts[..k] + ts[k + 1..]))
    ensures TasksWork(ts[..k] + with + ts[k + 1..]) == Plus(TasksWork(with), TasksWork(ts[..k] + ts[k + 1..]))
  {
    hide Plus, TasksWork, TaskWork;
    var a, t, b := ts[..k], ts[k], ts[k + 1..];
    assert ts == (a + [t]) + b;
    Between(a, [t], b);
    Between(a, with, b);
    TasksOne(t);
  }

  lemma Between(a: seq<Task>, m: seq<Task>, b: seq<Task>)
    ensures TasksWork(a + m + b) == Plus(TasksWork(m), TasksWork(a + b))
  {
    hide Plus, TasksWork;
    TasksSplit(a + m, b);
    TasksSplit(a, m);
    TasksSplit(a, b);
    PlusSwaps(TasksWork(a), TasksWork(m));
    PlusGroups(TasksWork(m), TasksWork(a), TasksWork(b));
  }

  /** What a finished call did and left comes to what its task was. */
  lemma Accounts(done: Work, queue: Work, others: Work, added: Work, queued: Work, next: Work, task: Work)
    requires Plus(added, Plus(queued, next)) == task
    ensures Plus(Plus(done, added), Plus(Plus(queue, queued), Plus(next, others)))
         == Plus(done, Plus(queue, Plus(task, others)))
  {
    assert task.touches == added.touches + (queued.touches + next.touches);
    assert (done.touches + added.touches) + ((queue.touches + queued.touches) + (next.touches + others.touches))
        == done.touches + (queue.touches + (task.touches + others.touches));
  }

  /** Before the pump has run, nothing is lost. */
  lemma CountedKeeps(w: Walk, k: nat)
    requires k < |w.active| && AllSound(w.queue) && AllSound(w.active)
    ensures var r := Resume(w.active[k]);
      var next := if r.next.Some? then [r.next.value] else [];
      var c := Walk(w.queue + r.queued, w.active[..k] + next + w.active[k + 1..], Plus(w.done, r.added), w.resolved);
      && Whole(c) == Whole(w) && c.done.calls == w.done.calls + 1
      && AllSound(c.queue) && AllSound(c.active)
  {
    hide Resume, TasksWork, TaskWork, Sound;
    var r := Resume(w.active[k]);
    var next := if r.next.Some? then [r.next.value] else [];
    ResumeKeeps(w.active[k]);
    OneOf(w.active, k, next);
    TasksSplit(w.queue, r.queued);
    assert TasksWork(next) == NextWork(r.next) by {
      if r.next.Some? { TasksOne(r.next.value); } else { TasksNone(); }
    }
    hide Plus;
    Accounts(w.done, TasksWork(w.queue), TasksWork(w.active[..k] + w.active[k + 1..]),
             r.added, TasksWork(r.queued), NextWork(r.next), TaskWork(w.active[k]));
  }

  lemma TasksNone()
    ensures TasksWork([]) == NOTHING
  {
  }

  lemma FinishedKeeps(w: Walk, k: nat, cancelled: bool)
    requires k < |w.active| && Fine(w)
    ensures var f := Finished(w, k, cancelled);
      && Fine(f) && f.done.calls == w.done.calls + 1
      && AtMost(Whole(f), Whole(w)) && (!cancelled ==> Whole(f) == Whole(w))
  {
    hide Resume, Whole, Sound, Pumped, Plus, AtMost;
    CountedKeeps(w, k);
    AtMostSelf(Whole(w));
    var r := Resume(w.active[k]);
    if r.next.Some? {
      assert w.active[k := r.next.value] == w.active[..k] + [r.next.value] + w.active[k + 1..];
    } else {
      assert w.active[..k] + [] + w.active[k + 1..] == w.active[..k] + w.active[k + 1..];
      var left := Walk(w.queue + r.queued, w.active[..k] + w.active[k + 1..], Plus(w.done, r.added), w.resolved);
      if !(left.active == [] && left.queue == []) {
        PumpedKeeps(left, cancelled);
      } else {
        ResolvedWhole(left);
      }
    }
  }

  lemma ResolvedWhole(w: Walk)
    ensures Whole(w.(resolved := true)) == Whole(w)
  {
  }

  /* ---- Over every schedule ---- */

  /** Which call finishes next, and whether the walk has been cancelled by then. */
  datatype Event = Event(k: nat, cancelled: bool)

  ghost predicate Runs(w: Walk, es: seq<Event>)
    decreases |es|
  {
    es == [] || (es[0].k < |w.active| && Sound(w.active[es[0].k])
                 && Runs(Finished(w, es[0].k, es[0].cancelled), es[1..]))
  }

  ghost function After(w: Walk, es: seq<Event>): Walk
    requires Runs(w, es)
    decreases |es|
  {
    if es == [] then w else After(Finished(w, es[0].k, es[0].cancelled), es[1..])
  }

  predicate Uncancelled(es: seq<Event>) {
    forall i :: 0 <= i < |es| ==> !es[i].cancelled
  }

  lemma {:induction false} AfterKeeps(w: Walk, es: seq<Event>)
    requires Fine(w) && Runs(w, es)
    ensures var a := After(w, es);
      && Fine(a) && a.done.calls == w.done.calls + |es|
      && AtMost(Whole(a), Whole(w)) && (Uncancelled(es) ==> Whole(a) == Whole(w))
    decreases |es|
  {
    hide Finished, Whole, AtMost, Sound, Fine;
    if es == [] {
      AtMostSelf(Whole(w));
    } else {
      FineIndex(w, es[0].k);
      FinishedKeeps(w, es[0].k, es[0].cancelled);
      var f := Finished(w, es[0].k, es[0].cancelled);
      AfterKeeps(f, es[1..]);
      AtMostThrough(Whole(After(f, es[1..])), Whole(f), Whole(w));
      if Uncancelled(es) {
        assert forall i :: 0 <= i < |es[1..]| ==> es[1..][i] == es[i + 1];
      }
    }
  }

  lemma FineIndex(w: Walk, k: nat)
    requires Fine(w) && k < |w.active|
    ensures Sound(w.active[k])
  {
  }

  lemma BeginKeeps(root: Path, dir: Dir, cancelled: bool)
    ensures var w := Begin(root, dir, cancelled);
      && Fine(w) && w.done.calls == 0 && AtMost(Whole(w), Sum(root, dir))
      && (!cancelled ==> Whole(w) == Sum(root, dir))
  {
    var t := Task(root, dir, Stat);
    var w := Walk([t], [], NOTHING, false);
    PumpedKeeps(w, cancelled);
    TasksOne(t);
    TasksNone();
    PlusNothing(Sum(root, dir));
    assert Whole(w) == Sum(root, dir);
  }

  /** A sound task has a call to wait for, so work is left exactly while tasks are. */
  lemma TasksCall(ts: seq<Task>)
    requires AllSound(ts) && ts != []
    ensures TasksWork(ts).calls >= 1
  {
    assert Sound(ts[0]);
    var t := ts[0];
    if t.phase.Each? { assert SumAll(t.path, t.phase.rest).calls >= 1; }
  }

  /**
   Whatever the order in which calls finish, a walk that is not cancelled
   resolves after exactly as many calls as the tree needs, never with more than
   sixteen directories in flight, having counted every path exactly once: its
   totals are the plain sum.
   */
  lemma WalkIsSum(root: Path, dir: Dir, es: seq<Event>)
    requires Runs(Begin(root, dir, false), es) && Uncancelled(es)
    ensures var w := After(Begin(root, dir, false), es);
      && |w.active| <= 16
      && |es| <= Sum(root, dir).calls
      && (w.resolved <==> |es| == Sum(root, dir).calls)
      && (w.resolved ==> w.queue == [] && w.done == Sum(root, dir))
  {
    hide Whole, Begin, AtMost, After;
    var b := Begin(root, dir, false);
    BeginKeeps(root, dir, false);
    AfterKeeps(b, es);
    WhatIsLeft(After(b, es), Sum(root, dir));
  }

  lemma WhatIsLeft(w: Walk, all: Work)
    requires Fine(w) && Whole(w) == all
    ensures w.resolved <==> w.done.calls == all.calls
    ensures w.done.calls <= all.calls
    ensures w.resolved ==> w.queue == [] && w.done == all
  {
    if w.active == [] {
      TasksNone();
      PlusNothing(NOTHING);
      PlusNothing(w.done);
    } else {
      TasksCall(w.active);
    }
  }

  /**
   Cancelled or not, at whatever moments: until it resolves some call is in
   flight, once it has none is, no schedule is longer than the tree, and
   nothing is counted that is not in the tree, or twice.
   */
  lemma WalkEnds(root: Path, dir: Dir, cancelled: bool, es: seq<Event>)
    requires Runs(Begin(root, dir, cancelled), es)
    ensures var w := After(Begin(root, dir, cancelled), es);
      && |w.active| <= 16
      && (w.resolved <==> w.active == [])
      && |es| <= Sum(root, dir).calls
      && AtMost(w.done, Sum(root, dir))
  {
    hide Whole, Begin, After;
    var b := Begin(root, dir, cancelled);
    BeginKeeps(root, dir, cancelled);
    AfterKeeps(b, es);
    var w := After(b, es);
    DoneAtMost(w);
    AtMostThrough(Whole(w), Whole(b), Sum(root, dir));
    AtMostThrough(w.done, Whole(w), Sum(root, dir));
  }

  lemma DoneAtMost(w: Walk)
    ensures AtMost(w.done, Whole(w))
  {
  }

  /** Two schedules of one tree end with the same totals, and the same errors. */
  lemma SchedulesAgree(root: Path, dir: Dir, one: seq<Event>, other: seq<Event>)
    requires Runs(Begin(root, dir, false), one) && Uncancelled(one)
    requires Runs(Begin(root, dir, false), other) && Uncancelled(other)
    requires After(Begin(root, dir, false), one).resolved && After(Begin(root, dir, false), other).resolved
    ensures After(Begin(root, dir, false), one).done == After(Begin(root, dir, false), other).done
    ensures |one| == |other|
  {
    hide Begin, After, Runs;
    WalkIsSum(root, dir, one);
    WalkIsSum(root, dir, other);
  }

  /* ---- What is counted ---- */

  /** Every path of a tree in the order of its listings, with its blocks, or as an error; a closed directory is both. */
  function Visits(path: Path, dir: Dir): seq<Touch>
    decreases dir, 0
  {
    match dir
    case Gone => [Failed(path)]
    case Closed(b) => [Counted(path, b), Failed(path)]
    case Listed(b, es) => [Counted(path, b)] + VisitsAll(path, es)
  }

  function VisitsAll(path: Path, es: seq<Entry>): seq<Touch>
    decreases es, 1
  {
    if es == [] then []
    else
      (match es[0]
       case Folder(name, dir) => Visits(path + [name], dir)
       case Leaf(name, Some(b)) => [Counted(path + [name], b)]
       case Leaf(name, None) => [Failed(path + [name])])
      + VisitsAll(path, es[1..])
  }

  /** Blocks of 512 bytes, one entry for what was counted, one error for what was not. */
  function Tally(vs: seq<Touch>): Totals {
    if vs == [] then Totals(0, 0, 0)
    else
      var t := Tally(vs[1..]);
      match vs[0]
      case Counted(_, b) => Totals(512 * b + t.bytes, 1 + t.entries, t.errors)
      case Failed(_) => Totals(t.bytes, t.entries, 1 + t.errors)
  }

  predicate Comes(w: Work, vs: seq<Touch>) {
    w.totals == Tally(vs) && w.touches == multiset(vs)
  }

  lemma {:induction false} TallySplit(a: seq<Touch>, b: seq<Touch>)
    ensures var x, y, z := Tally(a), Tally(b), Tally(a + b);
      z == Totals(x.bytes + y.bytes, x.entries + y.entries, x.errors + y.errors)
  {
    if a == [] {
      assert a + b == b;
    } else {
      assert (a + b)[1..] == a[1..] + b;
      TallySplit(a[1..], b);
    }
  }

  lemma ComesTogether(v: Work, a: seq<Touch>, w: Work, b: seq<Touch>)
    requires Comes(v, a) && Comes(w, b)
    ensures Comes(Plus(v, w), a + b)
  {
    TallySplit(a, b);
  }

  lemma ComesOne(path: Path, b: Option<nat>)
    ensures Comes(if b.Some? then Count(path, b.value) else Fail(path),
                  [if b.Some? then Counted(path, b.value) else Failed(path)])
  {
    assert [Failed(path)][1..] == [];
    if b.Some? { assert [Counted(path, b.value)][1..] == []; }
  }

  /** The sum of a tree is what its paths come to, each taken once: 512 bytes a block. */
  lemma {:induction false} SumIsVisits(path: Path, dir: Dir)
    ensures Comes(Sum(path, dir), Visits(path, dir))
    decreases dir, 0
  {
    hide Plus, Comes, Count, Fail;
    match dir {
      case Gone => ComesOne(path, None);
      case Closed(b) =>
        ComesOne(path, Some(b));
        ComesOne(path, None);
        ComesTogether(Count(path, b), [Counted(path, b)], Fail(path), [Failed(path)]);
        assert [Counted(path, b)] + [Failed(path)] == [Counted(path, b), Failed(path)];
      case Listed(b, es) =>
        ComesOne(path, Some(b));
        SumAllIsVisits(path, es);
        ComesNone(CALL);
        ComesTogether(CALL, [], SumAll(path, es), VisitsAll(path, es));
        assert [] + VisitsAll(path, es) == VisitsAll(path, es);
        ComesTogether(Count(path, b), [Counted(path, b)], Plus(CALL, SumAll(path, es)), VisitsAll(path, es));
    }
  }

  lemma ComesNone(w: Work)
    requires w.totals == Totals(0, 0, 0) && w.touches == multiset{}
    ensures Comes(w, [])
  {
  }

  lemma {:induction false} SumAllIsVisits(path: Path, es: seq<Entry>)
    ensures Comes(SumAll(path, es), VisitsAll(path, es))
    decreases es, 1
  {
    hide Plus, Comes, Count, Fail;
    if es == [] {
      ComesNone(NOTHING);
    } else {
      var first := match es[0]
        case Folder(name, dir) => Visits(path + [name], dir)
        case Leaf(name, Some(b)) => [Counted(path + [name], b)]
        case Leaf(name, None) => [Failed(path + [name])];
      match es[0] {
        case Folder(name, dir) => SumIsVisits(path + [name], dir);
        case Leaf(name, b) => ComesOne(path + [name], b);
      }
      SumAllIsVisits(path, es[1..]);
      ComesTogether(SumEntry(path, es[0]), first, SumAll(path, es[1..]), VisitsAll(path, es[1..]));
    }
  }

  /* ---- Which directories are started ---- */

  function Backwards(ts: seq<Task>): (r: seq<Task>)
    ensures |r| == |ts|
  {
    if ts == [] then [] else [ts[|ts| - 1]] + Backwards(ts[..|ts| - 1])
  }

  lemma BackwardsLast(ts: seq<Task>, from: nat)
    requires from < |ts|
    ensures var n := |ts| - 1;
      && Backwards(ts[from..]) == [ts[n]] + Backwards(ts[..n][from..])
      && ts[..n][..from] == ts[..from]
  {
    assert ts[from..][..|ts| - 1 - from] == ts[..|ts| - 1][from..];
  }

  /** From the end of the queue, the last first, as many as there is room for. */
  lemma {:induction false} FilledExactly(w: Walk)
    requires |w.active| <= 16
    ensures var left := |w.queue| - Min(16 - |w.active|, |w.queue|);
      Filled(w) == w.(queue := w.queue[..left], active := w.active + Backwards(w.queue[left..]))
    decreases |w.queue|
  {
    var n := |w.queue|;
    var left := n - Min(16 - |w.active|, n);
    if |w.active| < 16 && n > 0 {
      var last := w.queue[n - 1];
      FilledExactly(w.(queue := w.queue[..n - 1], active := w.active + [last]));
      BackwardsLast(w.queue, left);
      hide Backwards;
      Regroup(w.active, [last], Backwards(w.queue[..n - 1][left..]));
    } else {
      assert w.queue[..n] == w.queue && w.queue[n..] == [];
      assert w.active + [] == w.active;
    }
  }

  /** A directory ended: unless the walk is cancelled, the room it leaves is used as long as there is a use for it. */
  lemma RoomIsUsed(w: Walk, k: nat)
    requires k < |w.active| && Fine(w) && Resume(w.active[k]).next.None?
    ensures var f := Finished(w, k, false); |f.active| == 16 || f.queue == []
  {
    var r := Resume(w.active[k]);
    FilledExactly(w.(done := Plus(w.done, r.added), queue := w.queue + r.queued,
                     active := w.active[..k] + w.active[k + 1..]));
    hide Resume, Plus, Filled;
  }

  predicate InFlight(w: Walk, t: Task) {
    exists j :: 0 <= j < |w.active| && w.active[j].path == t.path && w.active[j].dir == t.dir
  }

  /** Each directory in flight is one that was. */
  ghost predicate NoneStarted(w: Walk, v: Walk) {
    forall i :: 0 <= i < |v.active| ==> InFlight(w, v.active[i])
  }

  lemma FinishedStartsNone(w: Walk, k: nat)
    requires k < |w.active| && Sound(w.active[k])
    ensures NoneStarted(w, Finished(w, k, true))
    ensures Resume(w.active[k]).next.None? ==>
      Finished(w, k, true).queue == [] && Finished(w, k, true).active == w.active[..k] + w.active[k + 1..]
  {
    var v := Finished(w, k, true);
    var r := Resume(w.active[k]);
    forall i | 0 <= i < |v.active| ensures InFlight(w, v.active[i]) {
      var j := if r.next.Some? || i < k then i else i + 1;
      assert w.active[j].path == v.active[i].path;
    }
  }

  /** A walk that is cancelled starts no further directory: those in flight go on to their end, and that is all. */
  lemma {:induction false} CancelledStartsNone(w: Walk, es: seq<Event>)
    requires Runs(w, es) && forall i :: 0 <= i < |es| ==> es[i].cancelled
    ensures NoneStarted(w, After(w, es))
    decreases |es|
  {
    hide Finished;
    if es != [] {
      var v := Finished(w, es[0].k, true);
      FinishedStartsNone(w, es[0].k);
      CancelledStartsNone(v, es[1..]);
    } else {
      assert forall i :: 0 <= i < |w.active| ==> w.active[i].path == w.active[i].path;
    }
  }

  /* ---- The source's own variables ---- */

  class Walker {
    var queue: seq<Task>
    /** The directories being processed, each suspended at a call. */
    var waiting: seq<Task>
    var active: nat
    var bytes: nat
    var entries: nat
    var errors: nat
    var resolved: bool
    ghost var touches: multiset<Touch>
    ghost var calls: nat

    ghost predicate Valid()
      reads this
    {
      active == |waiting| && AllSound(waiting)
    }

    ghost function Shown(): Walk
      reads this
    {
      Walk(queue, waiting, Work(Totals(bytes, entries, errors), touches, calls), resolved)
    }

    constructor (root: Path, dir: Dir, cancelled: bool)
      ensures Valid() && Shown() == Begin(root, dir, cancelled)
    {
      queue := [Task(root, dir, Stat)];
      waiting, active := [], 0;
      bytes, entries, errors, resolved := 0, 0, 0, false;
      touches, calls := multiset{}, 0;
      new;
      Pump(cancelled);
    }

    method Pump(cancelled: bool)
      requires active == |waiting| && AllSound(waiting) && AllSound(queue)
      modifies this
      ensures Valid() && Shown() == Pumped(old(Shown()), cancelled)
    {
      if cancelled {
        queue := [];
        if active == 0 { resolved := true; }
        return;
      }
      while active < SCAN_CONCURRENCY && |queue| > 0
        invariant Valid() && AllSound(queue)
        invariant Filled(Shown()) == Filled(old(Shown()))
        decreases |queue|
      {
        var dir := queue[|queue| - 1];
        queue := queue[..|queue| - 1];
        active := active + 1;
        waiting := waiting + [dir];
      }
      if active == 0 && |queue| == 0 { resolved := true; }
    }

    method Add(path: Path, blocks: Option<nat>)
      modifies `bytes, `entries, `errors, `touches, `calls
      ensures Shown() == old(Shown()).(done := Plus(old(Shown()).done,
                           if blocks.Some? then Count(path, blocks.value) else Fail(path)))
    {
      if blocks.Some? {
        bytes := bytes + blocks.value * BLOCK;
        entries := entries + 1;
        touches := touches + multiset{Counted(path, blocks.value)};
      } else {
        errors := errors + 1;
        touches := touches + multiset{Failed(path)};
      }
      calls := calls + 1;
    }

    /** The call the `k`-th directory waits for has finished: its worker runs to the next one. */
    method Finish(k: nat, cancelled: bool)
      requires Valid() && AllSound(queue) && k < |waiting|
      modifies this
      ensures Valid() && Shown() == Finished(old(Shown()), k, cancelled)
    {
      hide Plus, Filled, Pumped;
      var t := waiting[k];
      ResumeKeeps(t);
      match t.phase {
        case Stat =>
          assert queue + [] == queue;
          if t.dir.Gone? {
            Add(t.path, None);
            Settle(k, cancelled);
          } else {
            Add(t.path, Some(t.dir.blocks));
            waiting := waiting[k := t.(phase := List)];
          }
        case List =>
          if t.dir.Closed? {
            assert queue + [] == queue;
            Add(t.path, None);
            Settle(k, cancelled);
          } else {
            calls := calls + 1;
            PlusCall(old(Shown()).done);
            Continue(k, t.dir.entries, cancelled);
          }
        case Each(rest) =>
          Add(t.path + [rest[0].name], rest[0].blocks);
          Continue(k, rest[1..], cancelled);
      }
    }

    /** The loop over a listing, up to the next call it waits for, or the end. */
    method Continue(k: nat, entries: seq<Entry>, cancelled: bool)
      requires active == |waiting| && AllSound(waiting) && AllSound(queue) && k < |waiting|
      modifies this
      ensures Valid()
      ensures var t := old(waiting[k]);
        var w := old(Shown()).(queue := old(queue) + FoldersAhead(t.path, entries));
        var rest := FromLeaf(entries);
        Shown() == if rest == [] then Left(w, k, cancelled)
                   else w.(active := w.active[k := Task(t.path, t.dir, Each(rest))])
    {
      hide Left, Sound, FoldersAhead, FromLeaf;
      var t := waiting[k];
      FoldersSound(t.path, entries);
      var i := 0;
      assert entries[0..] == entries;
      while i < |entries|
        invariant 0 <= i <= |entries|
        invariant queue + FoldersAhead(t.path, entries[i..]) == old(queue) + FoldersAhead(t.path, entries)
        invariant FromLeaf(entries[i..]) == FromLeaf(entries)
        invariant Shown() == old(Shown()).(queue := queue)
        invariant active == |waiting|
      {
        var d := entries[i];
        assert entries[i..][0] == d && entries[i..][1..] == entries[i + 1..];
        ListingNext(t.path, entries[i..]);
        if d.Leaf? {
          assert queue + [] == queue;
          waiting := waiting[k := Task(t.path, t.dir, Each(entries[i..]))];
          LeafSound(t.path, t.dir, entries[i..]);
          return;
        }
        ghost var f := Task(t.path + [d.name], d.dir, Stat);
        ghost var ahead := FoldersAhead(t.path, entries[i + 1..]);
        assert (queue + [f]) + ahead == queue + ([f] + ahead);
        queue := queue + [Task(t.path + [d.name], d.dir, Stat)];
        i := i + 1;
      }
      ListingEnds(t.path, entries[i..]);
      assert queue + [] == queue;
      QueueSound(old(queue), FoldersAhead(t.path, entries));
      Settle(k, cancelled);
    }

    /** What follows a directory, however it ended. */
    method Settle(k: nat, cancelled: bool)
      requires active == |waiting| && AllSound(waiting) && AllSound(queue) && k < |waiting|
      modifies this
      ensures Valid() && Shown() == Left(old(Shown()), k, cancelled)
    {
      waiting := waiting[..k] + waiting[k + 1..];
      active := active - 1;
      if active == 0 && |queue| == 0 { resolved := true; } else { Pump(cancelled); }
    }
  }

  lemma PlusCall(a: Work)
    ensures Plus(a, CALL) == a.(calls := a.calls + 1)
  {
    assert a.touches + multiset{} == a.touches;
  }

  /** What the next entry of a listing means for what is queued and where the walk stops. */
  lemma ListingNext(path: Path, es: seq<Entry>)
    requires es != []
    ensures es[0].Leaf? ==> FoldersAhead(path, es) == [] && FromLeaf(es) == es
    ensures es[0].Folder? ==>
      && FoldersAhead(path, es) == [Task(path + [es[0].name], es[0].dir, Stat)] + FoldersAhead(path, es[1..])
      && FromLeaf(es) == FromLeaf(es[1..])
  {
  }

  lemma ListingEnds(path: Path, es: seq<Entry>)
    requires es == []
    ensures FoldersAhead(path, es) == [] && FromLeaf(es) == []
  {
  }

  lemma LeafSound(path: Path, dir: Dir, rest: seq<Entry>)
    requires rest != [] && rest[0].Leaf?
    ensures Sound(Task(path, dir, Each(rest)))
  {
  }

  lemma QueueSound(a: seq<Task>, b: seq<Task>)
    requires AllSound(a) && forall i :: 0 <= i < |b| ==> Sound(b[i])
    ensures AllSound(a + b)
  {
  }
}
