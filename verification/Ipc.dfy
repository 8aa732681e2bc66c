/**
 The pipe between the compositor and the server: compositor/src/ipc.c, and the
 reading half again in server/src/services/wayland.ts. Length-prefixed
 messages over short writes and short reads.
 */
module Ipc {
  import opened Bytes
  import opened Framing

  const IPC_MAX_MESSAGE: nat := 64 * 1024 * 1024
  const READ_ROOM: nat := 65536

  datatype Message = Message(kind: byte, payload: seq<byte>)

  function Encode(m: Message): (b: seq<byte>)
    ensures |b| == 5 + |m.payload|
  {
    PutU32(1 + |m.payload|) + [m.kind] + m.payload
  }

  function Decode(frame: seq<byte>): Message
    requires |frame| >= 5
  {
    Message(frame[4], frame[5..])
  }

  /** What either reader makes of the front of its buffer. */
  function IpcFront(b: seq<byte>): Verdict {
    if |b| < 4 then Wait
    else
      var len := GetU32(b);
      if len == 0 || len > IPC_MAX_MESSAGE then Bad
      else if |b| < 4 + len then Wait
      else Frame(4 + len)
  }

  lemma IpcStable()
    ensures Stable(IpcFront)
  {
    forall b, more ensures Settled(IpcFront, b, more) {
      if |b| >= 4 { assert GetU32(b + more) == GetU32(b); }
    }
  }

  predicate Fits(m: Message) {
    1 + |m.payload| <= IPC_MAX_MESSAGE
  }

  /** The length at the front of a message, whatever of its four bytes is followed by. */
  lemma IpcLength(m: Message, b: seq<byte>)
    requires Fits(m) && |b| >= 4 && b[..4] == Encode(m)[..4]
    ensures GetU32(b) == 1 + |m.payload|
  {
    hide PutU32, GetU32;
    assert b == PutU32(1 + |m.payload|) + b[4..];
    GetPutU32(1 + |m.payload|, b[4..]);
  }

  lemma IpcKnows(m: Message)
    requires Fits(m)
    ensures Knows(IpcFront, Encode(m))
    ensures Decode(Encode(m)) == m
  {
    hide PutU32, GetU32;
    var e := Encode(m);
    forall more ensures IpcFront(e + more) == Frame(|e|) {
      assert (e + more)[..4] == e[..4];
      IpcLength(m, e + more);
    }
    forall n | 0 <= n < |e| ensures IpcFront(e[..n]) == Wait {
      if n >= 4 {
        assert e[..n][..4] == e[..4];
        IpcLength(m, e[..n]);
      }
    }
    assert e[5..] == m.payload;
  }

  function Encodings(ms: seq<Message>): seq<seq<byte>> {
    seq(|ms|, i requires 0 <= i < |ms| => Encode(ms[i]))
  }

  function Decodings(frames: seq<seq<byte>>): seq<Message>
    requires forall i :: 0 <= i < |frames| ==> |frames[i]| >= 5
  {
    seq(|frames|, i requires 0 <= i < |frames| => Decode(frames[i]))
  }

  /** Every frame taken holds at least a length and a type. */
  lemma {:induction false} FramesHold(b: seq<byte>)
    ensures forall i :: 0 <= i < |Peel(IpcFront, b).frames| ==> |Peel(IpcFront, b).frames[i]| >= 5
    decreases |b|
  {
    if IpcFront(b).Frame? { FramesHold(b[IpcFront(b).size..]); }
  }

  /* ---- Writing ---- */

  /** What the kernel makes of one write. `Blocked` carries whether waiting for room then fails. */
  datatype WriteResult = Wrote(n: nat) | Interrupted | Blocked(pollFails: bool) | Failed

  /** What is left of the kernel's answers once `n` bytes are written; none if they are not. */
  function Goes(n: nat, kernel: seq<WriteResult>): Option<seq<WriteResult>>
    decreases |kernel|
  {
    if n == 0 then Some(kernel)
    else if kernel == [] then None
    else
      match kernel[0]
      case Failed => None
      case Blocked(pollFails) => if pollFails then None else Goes(n, kernel[1..])
      case Interrupted => Goes(n, kernel[1..])
      case Wrote(k) => Goes(n - Min(k, n), kernel[1..])
  }

  /** And of several writes after one another. */
  function GoesAll(sizes: seq<nat>, kernel: seq<WriteResult>): Option<seq<WriteResult>> {
    if sizes == [] then Some(kernel)
    else
      var later := Goes(sizes[0], kernel);
      if later.None? then None else GoesAll(sizes[1..], later.value)
  }

  predicate Fails(r: WriteResult) {
    r == Failed || r == Blocked(true)
  }

  function Taken(kernel: seq<WriteResult>): nat {
    if kernel == [] then 0 else (if kernel[0].Wrote? then kernel[0].n else 0) + Taken(kernel[1..])
  }

  /** The first `k` answers take `n` bytes between them, and none is a failure. */
  predicate Suffices(kernel: seq<WriteResult>, n: int, k: nat) {
    k <= |kernel| && Taken(kernel[..k]) >= n && forall i :: 0 <= i < k ==> !Fails(kernel[i])
  }

  lemma SufficesNext(kernel: seq<WriteResult>, n: int, k: nat)
    requires kernel != []
    ensures Suffices(kernel, n, k + 1) <==>
      !Fails(kernel[0]) && Suffices(kernel[1..], if kernel[0].Wrote? then n - kernel[0].n else n, k)
  {
    if k < |kernel| {
      assert kernel[..k + 1][1..] == kernel[1..][..k];
      assert forall i :: 0 <= i < k ==> kernel[1..][i] == kernel[i + 1];
      if Suffices(kernel[1..], if kernel[0].Wrote? then n - kernel[0].n else n, k) && !Fails(kernel[0]) {
        forall i | 0 <= i < k + 1 ensures !Fails(kernel[i]) {
          if i > 0 { assert kernel[i] == kernel[1..][i - 1]; }
        }
      }
    }
  }

  /**
   Written exactly when the kernel takes enough before it fails: being
   interrupted, or told to wait for room, is no failure however often.
   */
  lemma {:induction false} GoesExactly(n: nat, kernel: seq<WriteResult>)
    ensures Goes(n, kernel).Some? <==> exists k :: Suffices(kernel, n, k)
    decreases |kernel|
  {
    hide Suffices;
    if n == 0 {
      NothingSuffices(kernel);
    } else if kernel == [] {
      NoneSuffices(n);
    } else {
      NotAtOnce(kernel, n);
      var m: nat := if kernel[0].Wrote? then n - Min(kernel[0].n, n) else n;
      GoesExactly(m, kernel[1..]);
      if exists k :: Suffices(kernel, n, k) {
        var k: nat :| Suffices(kernel, n, k);
        SufficesNext(kernel, n, k - 1);
        LessSuffices(kernel[1..], if kernel[0].Wrote? then n - kernel[0].n else n, m, k - 1);
      }
      if !Fails(kernel[0]) && Goes(m, kernel[1..]).Some? {
        var k: nat :| Suffices(kernel[1..], m, k);
        LessSuffices(kernel[1..], m, if kernel[0].Wrote? then n - kernel[0].n else n, k);
        SufficesNext(kernel, n, k);
      }
    }
  }

  lemma NothingSuffices(kernel: seq<WriteResult>)
    ensures Suffices(kernel, 0, 0)
  {
  }

  lemma NoneSuffices(n: nat)
    requires n > 0
    ensures forall k :: !Suffices([], n, k)
  {
  }

  lemma NotAtOnce(kernel: seq<WriteResult>, n: nat)
    requires n > 0
    ensures !Suffices(kernel, n, 0)
  {
  }

  /** Enough for nothing is enough for less than nothing. */
  lemma LessSuffices(kernel: seq<WriteResult>, n: int, m: int, k: nat)
    requires Suffices(kernel, n, k) && (m <= n || m <= 0)
    ensures Suffices(kernel, m, k)
  {
  }

  /** The compositor's writing end. `sent` is what the far end will read. */
  class Sender {
    var sent: seq<byte>
    var broken: bool
    ghost var whole: seq<Message>
    ghost var cut: Message
    ghost var cutAt: nat

    /** The pipe holds whole messages and, only once it is broken, the beginning of one more. */
    ghost predicate Valid()
      reads this
    {
      && cutAt < |Encode(cut)|
      && sent == Concat(Encodings(whole)) + Encode(cut)[..cutAt]
      && (!broken ==> cutAt == 0)
    }

    constructor ()
      ensures Valid() && sent == [] && !broken && whole == []
    {
      sent, broken, whole, cut, cutAt := [], false, [], Message(0, []), 0;
    }

    /** Until everything is written, however little the kernel takes at a time. */
    method WriteAll(data: seq<byte>, kernel: seq<WriteResult>) returns (ok: bool, later: seq<WriteResult>)
      modifies `sent
      ensures ok ==> sent == old(sent) + data
      ensures !ok ==> exists n :: 0 <= n < |data| && sent == old(sent) + data[..n]
      ensures Goes(|data|, kernel) == if ok then Some(later) else None
    {
      var at, k := 0, 0;
      assert kernel[0..] == kernel;
      while at < |data|
        invariant 0 <= at <= |data| && 0 <= k <= |kernel|
        invariant sent == old(sent) + data[..at]
        invariant Goes(|data|, kernel) == Goes(|data| - at, kernel[k..])
        decreases |kernel| - k
      {
        if k == |kernel| { return false, []; }
        var result := kernel[k];
        assert kernel[k..][0] == result && kernel[k..][1..] == kernel[k + 1..];
        k := k + 1;
        match result {
          case Interrupted =>
          case Failed => return false, kernel[k..];
          case Blocked(pollFails) => if pollFails { return false, kernel[k..]; }
          case Wrote(n) =>
            var took := Min(n, |data| - at);
            assert data[..at + took] == data[..at] + data[at..at + took];
            sent := sent + data[at..at + took];
            at := at + took;
        }
      }
      assert data[..at] == data;
      return true, kernel[k..];
    }

    /** Prefix, head and body, each in its own write, as far as they get. */
    /** One part behind those that went before it, if there is anything in it. */
    method WritePart(part: seq<byte>, kernel: seq<WriteResult>, ghost was: seq<byte>, ghost all: seq<byte>,
                     ghost from: nat)
      returns (ok: bool, later: seq<WriteResult>)
      requires from + |part| <= |all| && all[from..from + |part|] == part && sent == was + all[..from]
      modifies `sent
      ensures ok ==> sent == was + all[..from + |part|]
      ensures !ok ==> exists n :: 0 <= n < |all| && sent == was + all[..n]
      ensures Goes(|part|, kernel) == if ok then Some(later) else None
    {
      if part == [] {
        GoesNowhere(kernel);
        return true, kernel;
      }
      ok, later := WriteAll(part, kernel);
      if ok {
        assert all[..from + |part|] == all[..from] + part;
      } else {
        ghost var n :| 0 <= n < |part| && sent == was + all[..from] + part[..n];
        assert all[..from + n] == all[..from] + part[..n];
      }
    }

    method WriteParts(prefix: seq<byte>, head: seq<byte>, body: seq<byte>, kernel: seq<WriteResult>)
      returns (ok: bool)
      modifies `sent
      ensures ok ==> sent == old(sent) + (prefix + head + body)
      ensures !ok ==> exists n :: 0 <= n < |prefix + head + body| && sent == old(sent) + (prefix + head + body)[..n]
      ensures ok <==> GoesAll([|prefix|, |head|, |body|], kernel).Some?
    {
      GoesInThree(|prefix|, |head|, |body|, kernel);
      ghost var all, was := prefix + head + body, sent;
      ghost var at := |prefix + head|;
      hide Goes, GoesAll;
      assert all[..0] == [] && all[..|all|] == all && was + [] == was;
      var later;
      ok, later := WritePart(prefix, kernel, was, all, 0);
      if !ok { return; }
      ok, later := WritePart(head, later, was, all, |prefix|);
      if !ok { return; }
      ok, later := WritePart(body, later, was, all, at);
    }

    /** One message; a failure breaks the channel for good. */
    method Send(kind: byte, head: seq<byte>, body: seq<byte>, kernel: seq<WriteResult>) returns (ok: bool)
      requires Valid()
      modifies this
      ensures Valid() && ok == !broken
      ensures old(broken) ==> !ok && sent == old(sent)
      ensures whole == if ok then old(whole) + [Message(kind, head + body)] else old(whole)
      ensures ok ==> sent == old(sent) + Encode(Message(kind, head + body))
      ensures !old(broken) ==> (ok <==> GoesAll([5, |head|, |body|], kernel).Some?)
    {
      hide PutU32, Concat, GoesAll;
      if broken { return false; }
      ghost var m := Message(kind, head + body);
      ghost var was := sent;
      assert was == Concat(Encodings(whole));
      var prefix := PutU32(1 + |head| + |body|) + [kind];
      assert Encode(m) == prefix + head + body;
      ok := WriteParts(prefix, head, body, kernel);
      if ok {
        ConcatSnoc(Encodings(whole), Encode(m));
        assert Encodings(whole + [m]) == Encodings(whole) + [Encode(m)];
        whole := whole + [m];
        assert sent == Concat(Encodings(whole));
      } else {
        broken := true;
        ghost var n :| 0 <= n < |Encode(m)| && sent == was + Encode(m)[..n];
        cut, cutAt := m, n;
      }
    }
  }

  lemma GoesNowhere(kernel: seq<WriteResult>)
    ensures Goes(0, kernel) == Some(kernel) && GoesAll([], kernel) == Some(kernel)
  {
  }

  lemma GoesFirst(sizes: seq<nat>, kernel: seq<WriteResult>)
    requires sizes != []
    ensures GoesAll(sizes, kernel) ==
      var later := Goes(sizes[0], kernel);
      if later.None? then None else GoesAll(sizes[1..], later.value)
  {
  }

  lemma GoesInThree(a: nat, b: nat, c: nat, kernel: seq<WriteResult>)
    ensures GoesAll([a, b, c], kernel).Some? <==>
      var x := Goes(a, kernel);
      && x.Some? && var y := Goes(b, x.value); y.Some? && Goes(c, y.value).Some?
    ensures Goes(0, kernel) == Some(kernel)
  {
    GoesNowhere(kernel);
    hide Goes, GoesAll;
    GoesFirst([a, b, c], kernel);
    assert [a, b, c][1..] == [b, c] && [b, c][1..] == [c] && [c][1..] == [];
    var x := Goes(a, kernel);
    if x.Some? {
      GoesFirst([b, c], x.value);
      var y := Goes(b, x.value);
      if y.Some? {
        GoesFirst([c], y.value);
        if Goes(c, y.value).Some? { GoesNowhere(Goes(c, y.value).value); }
      }
    }
  }

  /* ---- In bytes ---- */

  /** A length that counts the type, most significant byte first; the type; the payload. */
  lemma EncodeExactly(m: Message)
    requires Fits(m)
    ensures var b := Encode(m);
      && b[0] as int * 0x100_0000 + b[1] as int * 0x1_0000 + b[2] as int * 0x100 + b[3] as int == |b| - 4
      && |b| == 5 + |m.payload| && b[4] == m.kind && b[5..] == m.payload
  {
    IpcKnows(m);
    assert Encode(m)[..4] == Encode(m)[..4];
    IpcLength(m, Encode(m));
  }

  /** No message is empty, or longer than 64 MiB. */
  lemma FrontExactly(b: seq<byte>)
    ensures |b| < 4 ==> IpcFront(b) == Wait
    ensures |b| >= 4 ==>
      var len := b[0] as int * 0x100_0000 + b[1] as int * 0x1_0000 + b[2] as int * 0x100 + b[3] as int;
      IpcFront(b) ==
        if len == 0 || len > 67108864 then Bad else if |b| < 4 + len then Wait else Framing.Verdict.Frame(4 + len)
  {
  }

  /* ---- Reading ---- */

  /** The compositor's reading end: a buffer that grows, is read from the front and moved down. */
  class Receiver {
    var inBuf: array<byte>
    var inLen: nat
    var dispatched: seq<Message>

    ghost predicate Valid()
      reads this, inBuf
    {
      inLen <= inBuf.Length
    }

    /** The bytes read and not yet dispatched. */
    ghost function Held(): seq<byte>
      reads this, inBuf
      requires Valid()
    {
      inBuf[..inLen]
    }

    constructor ()
      ensures Valid() && Held() == [] && dispatched == [] && fresh(inBuf)
    {
      inBuf, inLen, dispatched := new byte[0], 0, [];
    }

    method EnsureCapacity(needed: nat)
      requires Valid()
      modifies `inBuf
      ensures Valid() && Held() == old(Held()) && inBuf.Length >= needed
      ensures inBuf == old(inBuf) || fresh(inBuf)
    {
      if inBuf.Length >= needed { return; }
      var cap := if inBuf.Length > 0 then inBuf.Length else 4096;
      while cap < needed
        invariant cap >= inBuf.Length && cap > 0
        decreases needed - cap
      {
        cap := cap * 2;
      }
      var bigger := new byte[cap](_ => 0);
      forall i | 0 <= i < inLen { bigger[i] := inBuf[i]; }
      assert bigger[..inLen] == inBuf[..inLen];
      inBuf := bigger;
    }

    /** One read of what is `available`, as much of it as there is room for. */
    method ReadSome(available: seq<byte>) returns (ok: bool, n: nat)
      requires Valid()
      modifies this, inBuf
      ensures Valid() && n <= |available| && (available != [] ==> n > 0)
      ensures inBuf == old(inBuf) || fresh(inBuf)
      ensures var p := Peel(IpcFront, old(Held()) + available[..n]);
        && (forall i :: 0 <= i < |p.frames| ==> |p.frames[i]| >= 5)
        && ok == !p.bad
        && dispatched == old(dispatched) + Decodings(p.frames)
        && (ok ==> Held() == p.rest)
    {
      EnsureCapacity(inLen + READ_ROOM);
      n := Min(|available|, inBuf.Length - inLen);
      ghost var before := Held();
      forall i | 0 <= i < n { inBuf[inLen + i] := available[i]; }
      inLen := inLen + n;
      assert Held() == before + available[..n];
      ok := Dispatch();
    }

    /** Bytes of what is held, where they are. */
    method Peek(offset: nat, n: nat) returns (b: seq<byte>)
      requires Valid() && offset + n <= inLen
      ensures b == Held()[offset..offset + n]
    {
      b := inBuf[offset..offset + n];
    }

    /** Dispatches every complete message, then moves what is left to the front. */
    method Dispatch() returns (ok: bool)
      requires Valid()
      modifies this, inBuf
      ensures Valid() && inBuf == old(inBuf)
      ensures var p := Peel(IpcFront, old(Held()));
        && (forall i :: 0 <= i < |p.frames| ==> |p.frames[i]| >= 5)
        && ok == !p.bad
        && dispatched == old(dispatched) + Decodings(p.frames)
        && (ok ==> Held() == p.rest)
    {
      hide Peel, Decode, GetU32, Decodings, Joined;
      ghost var all := Peel(IpcFront, Held());
      ghost var was, len := Held(), inLen;
      FramesHold(was);
      ghost var done: seq<seq<byte>> := [];
      var offset := 0;
      DispatchStarts(was);
      while true
        invariant 0 <= offset <= inLen == len && inBuf == old(inBuf) && inBuf[..len] == was
        invariant all == Joined(done, Peel(IpcFront, was[offset..]))
        invariant forall i :: 0 <= i < |done| ==> |done[i]| >= 5
        invariant dispatched == old(dispatched) + Decodings(done)
        decreases inLen - offset
      {
        PeelEnds(IpcFront, done, was[offset..]);
        if inLen - offset < 4 { break; }
        FrontLength(was, offset);
        var size := Peek(offset, 4);
        var len := GetU32(size);
        if len == 0 || len > IPC_MAX_MESSAGE { return false; }
        if inLen - offset < 4 + len { break; }
        var frame := Peek(offset, 4 + len);
        FrameTaken(was, offset, 4 + len, done);
        DecodingsSnoc(done, frame);
        dispatched := dispatched + [Decode(frame)];
        done := done + [frame];
        offset := offset + 4 + len;
      }
      if offset > 0 { MoveDown(offset); }
      return true;
    }

    /** memmove: what is left, to the front. */
    method MoveDown(offset: nat)
      requires Valid() && offset <= inLen
      modifies `inLen, inBuf
      ensures Valid() && Held() == old(Held())[offset..]
    {
      ghost var rest := inBuf[offset..inLen];
      forall i | 0 <= i < inLen - offset { inBuf[i] := inBuf[offset + i]; }
      inLen := inLen - offset;
      assert inBuf[..inLen] == rest;
    }
  }

  lemma DispatchStarts(was: seq<byte>)
    ensures was[0..] == was && Decodings([]) == []
    ensures Joined([], Peel(IpcFront, was)) == Peel(IpcFront, was)
  {
    assert [] + Peel(IpcFront, was).frames == Peel(IpcFront, was).frames;
  }

  lemma FrontLength(was: seq<byte>, offset: nat)
    requires offset + 4 <= |was|
    ensures GetU32(was[offset..offset + 4]) == GetU32(was[offset..])
  {
  }

  /** The frame at an offset of the buffer is the next of what there is to dispatch. */
  lemma FrameTaken(was: seq<byte>, offset: nat, n: nat, done: seq<seq<byte>>)
    requires offset <= |was| && IpcFront(was[offset..]) == Frame(n)
    ensures offset + n <= |was|
    ensures Joined(done, Peel(IpcFront, was[offset..]))
         == Joined(done + [was[offset..offset + n]], Peel(IpcFront, was[offset + n..]))
  {
    hide Peel;
    PeelNext(IpcFront, done, was[offset..], n);
    assert was[offset..][..n] == was[offset..offset + n] && was[offset..][n..] == was[offset + n..];
  }

  lemma DecodingsSnoc(done: seq<seq<byte>>, frame: seq<byte>)
    requires (forall i :: 0 <= i < |done| ==> |done[i]| >= 5) && |frame| >= 5
    ensures forall i :: 0 <= i < |done + [frame]| ==> |(done + [frame])[i]| >= 5
    ensures Decodings(done + [frame]) == Decodings(done) + [Decode(frame)]
  {
  }

  /** The server's end of the pipe: chunks appended to a buffer whose front is sliced off. */
  class ChannelReader {
    var buffered: seq<byte>
    var dispatched: seq<seq<byte>>
    var stopped: bool

    constructor ()
      ensures buffered == [] && dispatched == [] && !stopped
    {
      buffered, dispatched, stopped := [], [], false;
    }

    /** The `data` event; a message is handed on without its length. */
    method OnData(chunk: seq<byte>)
      requires !stopped
      modifies this
      ensures var p := Peel(IpcFront, old(buffered) + chunk);
        && dispatched == old(dispatched) + Bodies(p.frames)
        && stopped == p.bad && buffered == p.rest
    {
      hide Peel, GetU32, Bodies, Joined;
      buffered := if |buffered| > 0 then buffered + chunk else chunk;
      ghost var all := Peel(IpcFront, buffered);
      assert buffered == old(buffered) + chunk;
      ghost var done: seq<seq<byte>> := [];
      DispatchStarts(buffered);
      NoBodies();
      assert old(dispatched) + [] == old(dispatched);
      while true
        invariant !stopped
        invariant all == Joined(done, Peel(IpcFront, buffered))
        invariant dispatched == old(dispatched) + Bodies(done)
        decreases |buffered|
      {
        PeelEnds(IpcFront, done, buffered);
        if |buffered| < 4 { break; }
        var length := GetU32(buffered);
        if length == 0 || length > IPC_MAX_MESSAGE {
          stopped := true;
          return;
        }
        if |buffered| < 4 + length { break; }
        var message := buffered[4..4 + length];
        PeelNext(IpcFront, done, buffered, 4 + length);
        BodiesSnoc(done, buffered[..4 + length]);
        assert buffered[..4 + length][4..] == message;
        done := done + [buffered[..4 + length]];
        buffered := buffered[4 + length..];
        dispatched := dispatched + [message];
      }
    }
  }

  /** Frames without their lengths. */
  function Bodies(frames: seq<seq<byte>>): seq<seq<byte>> {
    if frames == [] then []
    else [if |frames[0]| >= 4 then frames[0][4..] else []] + Bodies(frames[1..])
  }

  lemma NoBodies()
    ensures Bodies([]) == []
  {
  }

  lemma {:induction false} BodiesSnoc(frames: seq<seq<byte>>, last: seq<byte>)
    requires |last| >= 4
    ensures Bodies(frames + [last]) == Bodies(frames) + [last[4..]]
  {
    if frames == [] {
      assert [last][1..] == [];
    } else {
      assert (frames + [last])[1..] == frames[1..] + [last];
      BodiesSnoc(frames[1..], last);
    }
  }

  /* ---- From one end to the other ---- */

  lemma DecodedEncodings(ms: seq<Message>)
    requires forall i :: 0 <= i < |ms| ==> Fits(ms[i])
    ensures KnowsAll(IpcFront, Encodings(ms))
    ensures Decodings(Encodings(ms)) == ms
  {
    forall i | 0 <= i < |ms| ensures Knows(IpcFront, Encodings(ms)[i]) && Decodings(Encodings(ms))[i] == ms[i] {
      IpcKnows(ms[i]);
    }
  }

  /**
   Whatever the writes and reads took at a time, and wherever the pipe broke:
   once the bytes have been read, exactly the messages sent whole have been
   dispatched, in order, and the bytes held are the beginning of the one cut off.
   */
  lemma MessagesArrive(whole: seq<Message>, cut: Message, cutAt: nat, chunks: seq<seq<byte>>)
    requires (forall i :: 0 <= i < |whole| ==> Fits(whole[i])) && Fits(cut) && cutAt < |Encode(cut)|
    requires Concat(chunks) == Concat(Encodings(whole)) + Encode(cut)[..cutAt]
    ensures var p := FeedAll(IpcFront, Nothing, chunks);
      && !p.bad && p.rest == Encode(cut)[..cutAt]
      && (forall i :: 0 <= i < |p.frames| ==> |p.frames[i]| >= 5) && Decodings(p.frames) == whole
  {
    IpcStable();
    ChunksDoNotMatter(IpcFront, [], chunks);
    assert [] + Concat(chunks) == Concat(chunks);
    DecodedEncodings(whole);
    IpcKnows(cut);
    PeelKnown(IpcFront, Encodings(whole), Encode(cut), cutAt);
  }
}
