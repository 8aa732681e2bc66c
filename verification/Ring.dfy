/**
 A terminal's scrollback, server/src/services/pty.ts: a circular buffer that
 grows up to a limit and holds the end of a stream, asked for by offsets.
 */
module Ring {
  import opened Bytes

  const INITIAL: nat := 16 * 1024
  const NEWLINE: byte := 0x0a

  /** The last `n` bytes of `s`, or all of it. */
  function Tail(s: seq<byte>, n: nat): (r: seq<byte>)
    ensures |r| == Min(|s|, n)
  {
    s[|s| - Min(|s|, n)..]
  }

  /** What the buffer can come to hold: it starts at a size of its own. */
  function Cap(limit: nat): nat {
    Max(limit, INITIAL)
  }

  /* ---- A circular buffer, as a sequence ---- */

  predicate Circle(b: seq<byte>, head: nat, len: nat) {
    head < |b| && len <= |b|
  }

  /** A position past the end is one at the beginning. */
  function Round(i: nat, n: nat): nat {
    if i < n then i else i - n
  }

  /** The `len` bytes from `head` on, round the end. */
  function Unrolled(b: seq<byte>, head: nat, len: nat): (r: seq<byte>)
    requires Circle(b, head, len)
    ensures |r| == len && forall i :: 0 <= i < len ==> r[i] == b[Round(head + i, |b|)]
  {
    seq(len, i requires 0 <= i < len => b[Round(head + i, |b|)])
  }

  lemma Wrap(x: nat, n: nat)
    requires x < 2 * n
    ensures x % n == Round(x, n)
  {
    if x >= n { assert x == n + (x - n); }
  }

  /** Moving the head on forgets the oldest bytes. */
  lemma HeadMoves(b: seq<byte>, head: nat, len: nat, k: nat)
    requires Circle(b, head, len) && k <= len
    ensures Circle(b, (head + k) % |b|, len - k)
    ensures Unrolled(b, (head + k) % |b|, len - k) == Unrolled(b, head, len)[k..]
  {
    Wrap(head + k, |b|);
    var u := Unrolled(b, Round(head + k, |b|), len - k);
    var w := Unrolled(b, head, len);
    forall i | 0 <= i < len - k ensures u[i] == w[k..][i] {
      assert w[k..][i] == w[k + i];
    }
  }

  /** `d` written at `tail`, round the end. */
  function Overwritten(b: seq<byte>, tail: nat, d: seq<byte>): (r: seq<byte>)
    requires tail < |b| && |d| <= |b|
    ensures |r| == |b|
  {
    seq(|b|, k requires 0 <= k < |b| =>
      var j := if k >= tail then k - tail else k + |b| - tail;
      if j < |d| then d[j] else b[k])
  }

  /** Bytes written behind the newest are what the buffer holds after them. */
  lemma TailWritten(b: seq<byte>, head: nat, len: nat, d: seq<byte>)
    requires Circle(b, head, len) && len + |d| <= |b|
    ensures Unrolled(Overwritten(b, (head + len) % |b|, d), head, len + |d|) == Unrolled(b, head, len) + d
  {
    Wrap(head + len, |b|);
    var tail := Round(head + len, |b|);
    var w := Overwritten(b, tail, d);
    forall i | 0 <= i < len + |d|
      ensures w[Round(head + i, |b|)] == (Unrolled(b, head, len) + d)[i]
    {
      if i >= len { assert Round(head + i, |b|) == Round(tail + (i - len), |b|); }
    }
  }

  /** Making room and writing, in a buffer that is either large enough or as large as it gets. */
  lemma RoomMade(b: seq<byte>, head: nat, len: nat, d: seq<byte>, cap: nat)
    requires Circle(b, head, len) && |b| <= cap && |d| <= |b|
    requires len + |d| > |b| ==> |b| == cap
    ensures var over := Max(0, len + |d| - |b|);
      var head', len' := if over > 0 then (head + over) % |b| else head, len - over;
      && Circle(b, head', len') && len' + |d| <= |b|
      && Unrolled(Overwritten(b, (head' + len') % |b|, d), head', len' + |d|) == Tail(Unrolled(b, head, len) + d, cap)
  {
    hide Unrolled, Overwritten;
    var over := Max(0, len + |d| - |b|);
    var head' := if over > 0 then (head + over) % |b| else head;
    if over > 0 { HeadMoves(b, head, len, over); }
    TailWritten(b, head', len - over, d);
    var u := Unrolled(b, head, len);
    assert |u| == len;
    if over > 0 { assert u[over..] + d == (u + d)[over..]; }
  }

  /* ---- The ring ---- */

  /** What a window can learn of a ring: the bytes held, and the offset after the newest. */
  datatype View = View(held: seq<byte>, end: int)

  function Pushed(v: View, data: seq<byte>, limit: nat): View {
    var kept := Tail(data, limit);
    View(Tail(v.held + kept, Cap(limit)), v.end + |kept|)
  }

  class Ring {
    var buf: array<byte>
    var head: nat
    var len: nat
    var end: nat
    const limit: nat

    ghost predicate Valid()
      reads this, buf
    {
      && Circle(buf[..], head, len)
      && INITIAL <= buf.Length <= Cap(limit)
      && len <= end
    }

    ghost function Shown(): View
      reads this, buf
      requires Valid()
    {
      View(Unrolled(buf[..], head, len), end)
    }

    constructor (limit: nat)
      ensures Valid() && fresh(buf) && this.limit == limit
      ensures Shown() == View([], 0)
    {
      this.limit := limit;
      buf := new byte[INITIAL];
      head, len, end := 0, 0, 0;
    }

    method Push(data: seq<byte>)
      requires Valid()
      modifies this, buf
      ensures Valid() && (buf == old(buf) || fresh(buf))
      ensures Shown() == Pushed(old(Shown()), data, limit)
    {
      hide Unrolled, Overwritten;
      var d := if |data| > limit then data[|data| - limit..] else data;
      assert d == Tail(data, limit);
      hide Tail;
      while len + |d| > buf.Length && buf.Length < limit
        invariant Valid() && Shown() == old(Shown()) && (buf == old(buf) || fresh(buf))
        decreases Cap(limit) - buf.Length
      {
        Grow();
      }
      Store(d);
    }

    /** The rest of a push: the oldest bytes make way, in a buffer that cannot grow. */
    method Store(d: seq<byte>)
      requires Valid() && |d| <= buf.Length
      requires len + |d| > buf.Length ==> buf.Length == Cap(limit)
      modifies `head, `len, `end, buf
      ensures Valid()
      ensures Shown() == View(Tail(old(Shown()).held + d, Cap(limit)), old(end) + |d|)
    {
      hide Tail, Unrolled, Overwritten;
      RoomMade(buf[..], head, len, d, Cap(limit));
      DropOldest(len + |d| - buf.Length);
      Write((head + len) % buf.Length, d);
      len := len + |d|;
      end := end + |d|;
    }

    /** The head moves over what has to go, if anything. */
    method DropOldest(overflow: int)
      requires buf.Length > 0 && overflow <= len
      modifies `head, `len
      ensures head == if overflow > 0 then (old(head) + overflow) % buf.Length else old(head)
      ensures len == old(len) - Max(0, overflow)
    {
      if overflow > 0 {
        head := (head + overflow) % buf.Length;
        len := len - overflow;
      }
    }

    /** The two copies of a push. */
    method Write(tail: nat, d: seq<byte>)
      requires tail < buf.Length && |d| <= buf.Length
      modifies buf
      ensures buf[..] == Overwritten(old(buf[..]), tail, d)
    {
      var first := Min(|d|, buf.Length - tail);
      forall i | 0 <= i < first {
        buf[tail + i] := d[i];
      }
      if first < |d| {
        forall i | 0 <= i < |d| - first {
          buf[i] := d[first + i];
        }
      }
    }

    /** Everything held, straightened out into memory of its own. */
    method Contents() returns (out: array<byte>)
      requires Valid()
      ensures fresh(out) && out[..] == Shown().held
    {
      out := new byte[len];
      var first := Min(len, buf.Length - head);
      forall i | 0 <= i < first {
        out[i] := buf[head + i];
      }
      if first < len {
        forall i | 0 <= i < len - first {
          out[first + i] := buf[i];
        }
      }
      assert forall i :: 0 <= i < len ==> out[i] == buf[..][Round(head + i, buf.Length)];
    }

    method Grow()
      requires Valid() && buf.Length < limit
      modifies this
      ensures Valid() && fresh(buf) && buf.Length > old(buf.Length)
      ensures Shown() == old(Shown())
    {
      var bigger := new byte[Min(limit, buf.Length * 2)];
      var held := Contents();
      forall i | 0 <= i < held.Length {
        bigger[i] := held[i];
      }
      assert bigger[..len] == held[..];
      buf := bigger;
      head := 0;
      forall i | 0 <= i < len ensures Unrolled(buf[..], 0, len)[i] == held[..][i] {
        assert bigger[..len][i] == buf[..][i];
      }
    }

    /** The bytes with offsets from `from` on; none to give when the first of them is no longer held. */
    method Since(from: int) returns (r: Option<seq<byte>>)
      requires Valid()
      ensures r == SinceOf(Shown(), from)
    {
      if from < end - len { return None; }
      if from >= end { return Some([]); }
      var held := Contents();
      return Some(held[from - (end - len)..]);
    }

    /** What a window with nothing is given: what is held, from a line boundary once bytes have been dropped. */
    method All() returns (bytes: seq<byte>, offset: int)
      requires Valid()
      ensures (bytes, offset) == AllOf(Shown())
    {
      var held := Contents();
      if end - len == 0 { return held[..], 0; }
      var nl := 0;
      while nl < held.Length && held[nl] != NEWLINE
        invariant 0 <= nl <= held.Length
        invariant Find(held[..]) == nl + Find(held[nl..])
      {
        assert held[nl..][1..] == held[nl + 1..];
        nl := nl + 1;
      }
      var skip := if nl < held.Length then nl + 1 else 0;
      return held[skip..], end - len + skip;
    }
  }

  function SinceOf(v: View, from: int): Option<seq<byte>> {
    if from < v.end - |v.held| then None
    else if from >= v.end then Some([])
    else Some(v.held[from - (v.end - |v.held|)..])
  }

  /** Where the first newline is, or the length. */
  function Find(s: seq<byte>): (n: nat)
    ensures n <= |s|
    ensures n < |s| ==> s[n] == NEWLINE
    ensures forall i :: 0 <= i < n ==> s[i] != NEWLINE
  {
    if s == [] || s[0] == NEWLINE then 0 else 1 + Find(s[1..])
  }

  function AllOf(v: View): (seq<byte>, int) {
    var start := v.end - |v.held|;
    var nl := Find(v.held);
    var skip := if start == 0 || nl == |v.held| then 0 else nl + 1;
    (v.held[skip..], start + skip)
  }

  /* ---- Over whole streams ---- */

  function AfterPushes(pushes: seq<seq<byte>>, limit: nat): View
  {
    if pushes == [] then View([], 0)
    else Pushed(AfterPushes(pushes[..|pushes| - 1], limit), pushes[|pushes| - 1], limit)
  }

  /** What the ring took of what it was given. */
  function Taken(pushes: seq<seq<byte>>, limit: nat): seq<byte> {
    if pushes == [] then []
    else Taken(pushes[..|pushes| - 1], limit) + Tail(pushes[|pushes| - 1], limit)
  }

  lemma TailOfTail(a: seq<byte>, b: seq<byte>, n: nat)
    ensures Tail(Tail(a, n) + b, n) == Tail(a + b, n)
  {
  }

  /** The ring holds the end of the stream it took, and counts it all. */
  lemma {:induction false} HoldsTheEnd(pushes: seq<seq<byte>>, limit: nat)
    ensures AfterPushes(pushes, limit) == View(Tail(Taken(pushes, limit), Cap(limit)), |Taken(pushes, limit)|)
  {
    if pushes != [] {
      var before := pushes[..|pushes| - 1];
      HoldsTheEnd(before, limit);
      TailOfTail(Taken(before, limit), Tail(pushes[|pushes| - 1], limit), Cap(limit));
    }
  }

  lemma TailOfEither(a: seq<byte>, a': seq<byte>, d: seq<byte>, n: nat)
    requires Tail(a, n) == Tail(a', n)
    ensures Tail(a + Tail(d, n), n) == Tail(a' + d, n)
  {
    TailOfTail(a, Tail(d, n), n);
    TailOfTail(a', d, n);
    if |d| > n {
      assert Tail(a + Tail(d, n), n) == Tail(d, n);
      assert Tail(a' + d, n) == Tail(d, n);
    }
  }

  /** Cutting a push to the limit loses nothing the ring would have kept. */
  lemma {:induction false} CutsDoNotShow(pushes: seq<seq<byte>>, limit: nat)
    ensures Tail(Taken(pushes, limit), limit) == Tail(Concat(pushes), limit)
  {
    if pushes != [] {
      var before := pushes[..|pushes| - 1];
      var last := pushes[|pushes| - 1];
      assert before + [last] == pushes;
      ConcatSnoc(before, last);
      CutsDoNotShow(before, limit);
      TailOfEither(Taken(before, limit), Concat(before), last, limit);
    }
  }

  /**
   After any pushes of any sizes, a ring whose limit is no less than the size
   it starts with holds exactly the last `limit` bytes of the stream.
   */
  lemma LastBytesHeld(pushes: seq<seq<byte>>, limit: nat)
    requires limit >= 16384
    ensures AfterPushes(pushes, limit).held == Tail(Concat(pushes), limit)
  {
    HoldsTheEnd(pushes, limit);
    CutsDoNotShow(pushes, limit);
  }

  predicate Oversized(pushes: seq<seq<byte>>, limit: nat) {
    exists i :: 0 <= i < |pushes| && |pushes[i]| > limit
  }

  /** The offsets are those of the stream exactly when no single push was over the limit. */
  lemma {:induction false} OffsetsAreTheStreams(pushes: seq<seq<byte>>, limit: nat)
    ensures |Taken(pushes, limit)| <= |Concat(pushes)|
    ensures |Taken(pushes, limit)| == |Concat(pushes)| <==> !Oversized(pushes, limit)
    ensures !Oversized(pushes, limit) ==> Taken(pushes, limit) == Concat(pushes)
  {
    if pushes != [] {
      var before := pushes[..|pushes| - 1];
      var last := pushes[|pushes| - 1];
      TakenSnoc(pushes, limit);
      TailWhole(last, limit);
      hide Taken, Oversized, Concat, Tail;
      assert before + [last] == pushes;
      ConcatSnoc(before, last);
      OversizedSnoc(before, last, limit);
      OffsetsAreTheStreams(before, limit);
    } else {
      assert !Oversized(pushes, limit);
    }
  }

  lemma TailWhole(s: seq<byte>, n: nat)
    ensures |s| <= n ==> Tail(s, n) == s
  {
  }

  lemma TakenSnoc(pushes: seq<seq<byte>>, limit: nat)
    requires pushes != []
    ensures Taken(pushes, limit) == Taken(pushes[..|pushes| - 1], limit) + Tail(pushes[|pushes| - 1], limit)
  {
  }

  lemma OversizedSnoc(before: seq<seq<byte>>, last: seq<byte>, limit: nat)
    ensures Oversized(before + [last], limit) <==> Oversized(before, limit) || |last| > limit
  {
    var all := before + [last];
    assert all[|before|] == last;
    assert forall i :: 0 <= i < |before| ==> all[i] == before[i];
    if Oversized(before, limit) {
      var i :| 0 <= i < |before| && |before[i]| > limit;
      assert |all[i]| > limit;
    }
  }

  /**
   What is asked for by offset is exactly that part of the stream; it is
   refused exactly when its first byte has been dropped.
   */
  lemma SinceIsTheStream(pushes: seq<seq<byte>>, limit: nat, from: int)
    requires !Oversized(pushes, limit)
    ensures var stream := Concat(pushes);
      SinceOf(AfterPushes(pushes, limit), from) ==
      if from < |stream| - Min(|stream|, Cap(limit)) then None
      else if from < |stream| then Some(stream[from..])
      else Some([])
  {
    HoldsTheEnd(pushes, limit);
    OffsetsAreTheStreams(pushes, limit);
  }

  /**
   With pushes of any size an offset means what it says short of a lag, the
   bytes that oversized pushes went uncounted by; what is handed out always
   reaches to the end of the stream.
   */
  lemma SinceLags(pushes: seq<seq<byte>>, limit: nat, from: int)
    requires limit >= 16384
    ensures var stream, v := Concat(pushes), AfterPushes(pushes, limit);
      var lag := |stream| - v.end;
      && lag >= 0 && (lag == 0 <==> !Oversized(pushes, limit))
      && SinceOf(v, from) ==
         if from + lag < |stream| - Min(|stream|, limit) then None
         else if from + lag < |stream| then Some(stream[from + lag..])
         else Some([])
  {
    hide AfterPushes, Taken, Oversized, Concat;
    HoldsTheEnd(pushes, limit);
    OffsetsAreTheStreams(pushes, limit);
    LastBytesHeld(pushes, limit);
    var stream, v := Concat(pushes), AfterPushes(pushes, limit);
    var start := |stream| - |v.held|;
    var at := from + |stream| - v.end;
    if start <= at < |stream| {
      assert v.held[at - start..] == stream[at..];
    }
  }

  /** No newline from `from` up to the cut, or to the end where there is none. */
  predicate NoLineBefore(stream: seq<byte>, from: int, cut: int)
    requires 0 <= from <= cut <= |stream|
  {
    forall i :: from <= i < (if cut > from then cut - 1 else |stream|) ==> stream[i] != 10
  }

  /** Where a view that lags behind its stream is cut. */
  lemma CutLagging(stream: seq<byte>, cap: nat, lag: nat)
    requires lag <= |stream| - Min(|stream|, cap)
    ensures var first := |stream| - Min(|stream|, cap);
      var (bytes, offset) := AllOf(View(Tail(stream, cap), |stream| - lag));
      && first <= offset + lag <= |stream| && bytes == stream[offset + lag..]
      && (first == lag ==> offset == 0)
      && (first > lag && offset + lag > first ==> stream[offset + lag - 1] == 10)
      && (first > lag ==> NoLineBefore(stream, first, offset + lag))
  {
    hide Find;
    var held := Tail(stream, cap);
    var first := |stream| - |held|;
    assert forall i :: first <= i < |stream| ==> stream[i] == held[i - first];
  }

  lemma CutAtALine(stream: seq<byte>, cap: nat)
    ensures var start := |stream| - Min(|stream|, cap);
      var (bytes, offset) := AllOf(View(Tail(stream, cap), |stream|));
      && start <= offset <= |stream| && bytes == stream[offset..]
      && (start == 0 ==> offset == 0)
      && (start > 0 && offset > start ==> stream[offset - 1] == 10)
      && (start > 0 ==> NoLineBefore(stream, start, offset))
  {
    CutLagging(stream, cap, 0);
  }

  /**
   With pushes of any size everything handed out is the end of the stream, from
   an offset that lags as those of `since` do. The cut is at a line boundary
   unless the oldest byte held has offset 0.
   */
  lemma AllLags(pushes: seq<seq<byte>>, limit: nat)
    requires limit >= 16384
    ensures var stream, v := Concat(pushes), AfterPushes(pushes, limit);
      var lag, first := |stream| - v.end, |stream| - Min(|stream|, limit);
      var (bytes, offset) := AllOf(v);
      && 0 <= lag <= first && (lag == 0 <==> !Oversized(pushes, limit))
      && first <= offset + lag <= |stream| && bytes == stream[offset + lag..]
      && (first == lag ==> offset == 0)
      && (first > lag && offset + lag > first ==> stream[offset + lag - 1] == 10)
      && (first > lag ==> NoLineBefore(stream, first, offset + lag))
  {
    hide Tail, AllOf, AfterPushes, Taken, NoLineBefore, Oversized, Concat;
    HoldsTheEnd(pushes, limit);
    OffsetsAreTheStreams(pushes, limit);
    LastBytesHeld(pushes, limit);
    CutLagging(Concat(pushes), limit, |Concat(pushes)| - AfterPushes(pushes, limit).end);
  }

  /**
   So after a first push larger than the ring everything is handed out from
   offset 0, in the middle of a line or not, though bytes before it are gone.
   */
  lemma OversizedFirst(data: seq<byte>, limit: nat)
    requires limit >= 16384 && |data| > limit
    ensures AllOf(AfterPushes([data], limit)) == (data[|data| - limit..], 0)
  {
    assert [data][..0] == [];
    LastBytesHeld([data], limit);
    HoldsTheEnd([data], limit);
    ConcatCons(data, []);
    assert [data] + [] == [data] && data + [] == data;
  }

  /**
   The whole of it is the stream from the offset it names; the offset is 0
   when nothing has been dropped, else the first byte after a newline among
   those held, else the oldest held.
   */
  lemma AllIsTheStream(pushes: seq<seq<byte>>, limit: nat)
    requires !Oversized(pushes, limit)
    ensures var stream := Concat(pushes);
      var start := |stream| - Min(|stream|, Cap(limit));
      var (bytes, offset) := AllOf(AfterPushes(pushes, limit));
      && start <= offset <= |stream| && bytes == stream[offset..]
      && (start == 0 ==> offset == 0)
      && (start > 0 && offset > start ==> stream[offset - 1] == 10)
      && (start > 0 ==> NoLineBefore(stream, start, offset))
  {
    hide Tail, AllOf, AfterPushes, Taken, NoLineBefore, Oversized, Concat;
    HoldsTheEnd(pushes, limit);
    OffsetsAreTheStreams(pushes, limit);
    CutAtALine(Concat(pushes), Cap(limit));
  }

  lemma Rejoined(a: seq<byte>, b: seq<byte>, offset: int)
    requires 0 <= offset <= |a|
    ensures a[offset..] + (a + b)[|a|..] == (a + b)[offset..]
    ensures (a + b)[|a|..] == b && b + [] == b
  {
  }

  /** A window that has all of it up to an offset, and is given what follows, has the stream. */
  lemma CatchingUp(before: seq<seq<byte>>, after: seq<seq<byte>>, limit: nat)
    requires !Oversized(before + after, limit)
    ensures var (bytes, offset) := AllOf(AfterPushes(before, limit));
      var more := SinceOf(AfterPushes(before + after, limit), |Concat(before)|);
      && 0 <= offset <= |Concat(before)|
      && (more.Some? <==> |Concat(after)| <= Cap(limit))
      && Concat(before + after) == Concat(before) + Concat(after)
      && (more.Some? ==> bytes + more.value == (Concat(before) + Concat(after))[offset..])
  {
    assert !Oversized(before, limit) by {
      forall i | 0 <= i < |before| ensures |before[i]| <= limit {
        assert (before + after)[i] == before[i];
      }
    }
    hide AllOf, SinceOf, AfterPushes, NoLineBefore, Oversized, Concat;
    AllIsTheStream(before, limit);
    SinceIsTheStream(before + after, limit, |Concat(before)|);
    ConcatSplit(before, after);
    Rejoined(Concat(before), Concat(after), AllOf(AfterPushes(before, limit)).1);
  }
}
