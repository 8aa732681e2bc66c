/** Frames cut from the front of a byte stream that arrives in arbitrary chunks. */
module Framing {
  import opened Bytes

  /** What the front of a buffer is: the start of a frame, no frame at all, or a frame of `size` bytes. */
  datatype Verdict = Wait | Bad | Frame(size: nat)

  /** Frames taken so far, what is left of the buffer, and whether the stream was given up. */
  datatype Peeled = Peeled(frames: seq<seq<byte>>, rest: seq<byte>, bad: bool)

  type Framer = seq<byte> -> Verdict

  predicate Progress(f: Framer, b: seq<byte>) {
    f(b).Frame? ==> 0 < f(b).size <= |b|
  }

  /** A frame or a fault is decided by bytes that have arrived: more bytes behind them change nothing. */
  ghost predicate Settled(f: Framer, b: seq<byte>, more: seq<byte>) {
    Progress(f, b) && (f(b) != Wait ==> f(b + more) == f(b))
  }

  ghost predicate Stable(f: Framer) {
    forall b, more :: Settled(f, b, more)
  }

  /** Frames from the front of `b` for as long as there are any. */
  function Peel(f: Framer, b: seq<byte>): (p: Peeled)
    decreases |b|
  {
    if f(b).Frame? && Progress(f, b) then
      var later := Peel(f, b[f(b).size..]);
      later.(frames := [b[..f(b).size]] + later.frames)
    else Peeled([], b, f(b).Bad?)
  }

  /** No byte is lost or made up: the frames and the rest are the buffer. */
  lemma {:induction false} PeelKeepsBytes(f: Framer, b: seq<byte>)
    ensures Concat(Peel(f, b).frames) + Peel(f, b).rest == b
    decreases |b|
  {
    if f(b).Frame? && Progress(f, b) {
      var head, tail := b[..f(b).size], b[f(b).size..];
      PeelKeepsBytes(f, tail);
      var later := Peel(f, tail);
      ConcatCons(head, later.frames);
      Regroup(head, Concat(later.frames), later.rest);
    }
  }

  /** What is left has nothing more to take. */
  lemma {:induction false} PeelIsDone(f: Framer, b: seq<byte>)
    requires Stable(f)
    ensures Peel(f, b).bad <==> f(Peel(f, b).rest).Bad?
    ensures !Peel(f, b).bad ==> f(Peel(f, b).rest).Wait?
    decreases |b|
  {
    assert Settled(f, b, []);
    if f(b).Frame? { PeelIsDone(f, b[f(b).size..]); }
  }

  /* ---- A loop that takes frames one by one ---- */

  function Joined(done: seq<seq<byte>>, p: Peeled): Peeled {
    p.(frames := done + p.frames)
  }

  lemma PeelEnds(f: Framer, done: seq<seq<byte>>, front: seq<byte>)
    ensures !f(front).Frame? ==> Joined(done, Peel(f, front)) == Peeled(done, front, f(front).Bad?)
  {
    assert done + [] == done;
  }

  lemma PeelNext(f: Framer, done: seq<seq<byte>>, front: seq<byte>, size: nat)
    requires f(front) == Frame(size) && Progress(f, front)
    ensures size <= |front|
    ensures Joined(done, Peel(f, front)) == Joined(done + [front[..size]], Peel(f, front[size..]))
  {
    var later := Peel(f, front[size..]);
    assert done + ([front[..size]] + later.frames) == (done + [front[..size]]) + later.frames;
  }

  /** A chunk peeled behind what was left of the one before. */
  function Feed(f: Framer, p: Peeled, chunk: seq<byte>): Peeled {
    if p.bad then p.(rest := p.rest + chunk)
    else
      var q := Peel(f, p.rest + chunk);
      q.(frames := p.frames + q.frames)
  }

  function Before(head: seq<byte>, p: Peeled): Peeled {
    p.(frames := [head] + p.frames)
  }

  lemma PeelFrame(f: Framer, b: seq<byte>)
    requires Stable(f) && f(b).Frame?
    ensures 0 < f(b).size <= |b| && Peel(f, b) == Before(b[..f(b).size], Peel(f, b[f(b).size..]))
  {
    assert Settled(f, b, []);
  }

  lemma FeedBefore(f: Framer, head: seq<byte>, p: Peeled, chunk: seq<byte>)
    ensures Feed(f, Before(head, p), chunk) == Before(head, Feed(f, p, chunk))
  {
    if !p.bad {
      var q := Peel(f, p.rest + chunk);
      assert ([head] + p.frames) + q.frames == [head] + (p.frames + q.frames);
    }
  }

  /** Peeling a stream at once, or its beginning first and the rest later, takes the same frames. */
  lemma {:induction false} PeelInTwo(f: Framer, a: seq<byte>, b: seq<byte>)
    requires Stable(f)
    ensures Peel(f, a + b) == Feed(f, Peel(f, a), b)
    decreases |a|
  {
    hide Before;
    assert Settled(f, a, b);
    if f(a).Frame? {
      hide Peel, Feed;
      var n := f(a).size;
      PeelFrame(f, a);
      PeelFrame(f, a + b);
      assert (a + b)[..n] == a[..n] && (a + b)[n..] == a[n..] + b;
      PeelInTwo(f, a[n..], b);
      FeedBefore(f, a[..n], Peel(f, a[n..]), b);
    } else if f(a).Wait? {
      assert [] + Peel(f, a + b).frames == Peel(f, a + b).frames;
    }
  }

  function FeedAll(f: Framer, p: Peeled, chunks: seq<seq<byte>>): Peeled
    decreases |chunks|
  {
    if chunks == [] then p else FeedAll(f, Feed(f, p, chunks[0]), chunks[1..])
  }

  const Nothing := Peeled([], [], false)

  /** However a stream is cut into chunks, what has been taken depends on its bytes alone. */
  lemma {:induction false} ChunksDoNotMatter(f: Framer, seen: seq<byte>, chunks: seq<seq<byte>>)
    requires Stable(f)
    ensures FeedAll(f, Peel(f, seen), chunks) == Peel(f, seen + Concat(chunks))
    decreases |chunks|
  {
    if chunks == [] {
      assert seen + [] == seen;
    } else {
      PeelInTwo(f, seen, chunks[0]);
      ChunksDoNotMatter(f, seen + chunks[0], chunks[1..]);
      assert seen + chunks[0] + Concat(chunks[1..]) == seen + Concat(chunks);
    }
  }

  /* ---- Streams of known frames ---- */

  /** `f` knows `frame` for one, whatever follows it, and not before all of it is there. */
  ghost predicate Knows(f: Framer, frame: seq<byte>) {
    && frame != []
    && (forall more :: f(frame + more) == Frame(|frame|))
    && (forall n :: 0 <= n < |frame| ==> f(frame[..n]) == Wait)
  }

  ghost predicate KnowsAll(f: Framer, frames: seq<seq<byte>>) {
    forall i :: 0 <= i < |frames| ==> Knows(f, frames[i])
  }

  /** A stream of whole frames and the beginning of another gives exactly those frames. */
  lemma {:induction false} PeelKnown(f: Framer, frames: seq<seq<byte>>, next: seq<byte>, n: nat)
    requires KnowsAll(f, frames) && Knows(f, next) && n < |next|
    ensures Peel(f, Concat(frames) + next[..n]) == Peeled(frames, next[..n], false)
    decreases |frames|
  {
    if frames == [] {
      assert [] + next[..n] == next[..n];
    } else {
      var first, later := frames[0], Concat(frames[1..]) + next[..n];
      assert Concat(frames) + next[..n] == first + later;
      assert f(first + later) == Frame(|first|);
      assert (first + later)[..|first|] == first && (first + later)[|first|..] == later;
      PeelKnown(f, frames[1..], next, n);
      assert [first] + frames[1..] == frames;
    }
  }
}
