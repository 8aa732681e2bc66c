/**
 The X clipboard as compositor/src/xwm.c keeps it: one selection being read,
 in a buffer that grows, and one on its way out.
 */
module XClipboard {
  import opened Bytes
  import opened Latin1
  import opened Steps = Incr

  const FIRST_CAP: nat := 4096

  class Clipboard {
    var clip: Option<Text>
    var props: map<nat, Property>

    var active: bool
    var incr: bool
    var latin1: bool
    var buf: array?<byte>
    var len: nat

    var requestor: nat
    var data: Option<Text>
    var at: nat
    var started: int

    ghost predicate Valid()
      reads this
    {
      && (buf == null <==> len == 0)
      && (buf != null ==> len < buf.Length)
      && (!active ==> buf == null && !incr && !latin1)
      && (data.Some? ==> at <= |data.value|)
    }

    ghost function Held(): Text
      reads this, buf
      requires Valid()
    {
      if buf == null then [] else buf[..len]
    }

    ghost function In(): Inbox
      reads this, buf
      requires Valid()
    {
      Inbox(clip, Pull(active, incr, latin1, Held()))
    }

    ghost function Out(): Server
      reads this
    {
      Server(clip, if data.Some? then Some(Push(requestor, data.value, at, started)) else None, props)
    }

    constructor ()
      ensures Valid() && In() == Inbox(None, NO_PULL) && Out() == IDLE.server
    {
      clip, props := None, map[];
      active, incr, latin1, buf, len := false, false, false, null, 0;
      requestor, data, at, started := 0, None, 0, 0;
    }

    /* ---- In ---- */

    method PullStart(latin1: bool)
      requires Valid()
      modifies `active, `incr, `latin1, `buf, `len
      ensures Valid() && In() == Steps.PullStart(old(In()), latin1)
    {
      buf, len := null, 0;
      active, incr, this.latin1 := true, false, latin1;
    }

    method PullEnd(ok: bool)
      requires Valid()
      modifies `clip, `active, `incr, `latin1, `buf, `len
      ensures Valid() && In() == Steps.PullEnd(old(In()), ok)
      ensures Out() == old(Out()).(clip := clip)
    {
      var text, n, wasLatin1 := buf, len, latin1;
      active, incr, latin1, buf, len := false, false, false, null, 0;
      if !ok || text == null { return; }
      if wasLatin1 {
        var utf8, m := Latin1ToUtf8(text[..n]);
        clip := Some(utf8[..m]);
      } else {
        clip := Some(text[..n]);
      }
    }

    /** Room for `more` bytes and the end mark, what is held staying put. */
    method Reserve(more: nat)
      requires Valid() && more > 0
      modifies `buf
      ensures buf != null && len + more < buf.Length && (buf == old(buf) || fresh(buf))
      ensures buf[..len] == old(Held())
    {
      if buf == null || len + more + 1 > buf.Length {
        var cap := if buf == null then FIRST_CAP else buf.Length;
        while cap < len + more + 1
          invariant cap > 0
          decreases len + more + 1 - cap
        {
          cap := cap * 2;
        }
        var bigger := new byte[cap];
        if buf != null {
          forall i | 0 <= i < len {
            bigger[i] := buf[i];
          }
        }
        buf := bigger;
      }
    }

    method Append(value: Text, take: nat)
      requires Valid() && active && 0 < take <= |value|
      modifies `buf, `len, buf
      ensures Valid() && (buf == old(buf) || fresh(buf))
      ensures Held() == old(Held()) + value[..take]
    {
      Reserve(take);
      ghost var before := buf[..len];
      forall i | 0 <= i < take {
        buf[len + i] := value[i];
      }
      buf[len + take] := 0;
      forall i | 0 <= i < len + take
        ensures buf[i] == (before + value[..take])[i]
      {
        if i < len { assert buf[..len][i] == before[i]; } else { assert buf[len + (i - len)] == value[i - len]; }
      }
      assert buf[..len + take] == before + value[..take];
      len := len + take;
    }

    /** As much of a piece as the limit leaves room for. */
    method Take(value: Text)
      requires Valid() && active
      modifies `buf, `len, buf
      ensures Valid() && (buf == old(buf) || fresh(buf))
      ensures Held() == old(Held()) + First(value, CLIP_MAX - Min(|old(Held())|, CLIP_MAX))
    {
      if len < CLIP_MAX && |value| > 0 {
        var take := if |value| < CLIP_MAX - len then |value| else CLIP_MAX - len;
        Append(value, take);
      } else {
        assert Held() + First(value, CLIP_MAX - Min(|Held()|, CLIP_MAX)) == Held();
      }
    }

    method PullRead(p: Option<Property>)
      requires Valid() && active
      modifies `clip, `active, `incr, `latin1, `buf, `len, buf
      ensures Valid() && In() == Steps.PullRead(old(In()), p)
      ensures Out() == old(Out()).(clip := clip)
    {
      if p.None? { PullEnd(false); return; }
      if p.value.Size? {
        incr := true;
        return;
      }
      if p.value.Words? { PullEnd(false); return; }
      hide First;
      var value := First(p.value.bytes, READ_MAX);
      Take(value);
      if !incr || |value| == 0 { PullEnd(true); }
    }

    method SetClipboard(text: Text)
      requires Valid()
      modifies `clip, `active, `incr, `latin1, `buf, `len
      ensures Valid() && In() == Steps.SetClipboard(old(In()), text)
      ensures Out() == old(Out()).(clip := Some(text))
    {
      clip := Some(text);
      if active { PullEnd(false); }
    }

    /* ---- Out ---- */

    method PushEnd()
      modifies `data, `at
      ensures data.None? && at == 0
    {
      data, at := None, 0;
    }

    method PushPiece()
      requires Valid() && data.Some?
      modifies `props, `data, `at
      ensures Valid() && Out() == Steps.PushPiece(old(Out())) && In() == old(In())
    {
      var n := |data.value| - at;
      if n > INCR_PIECE { n := INCR_PIECE; }
      props := props[requestor := Piece(data.value[at..at + n])];
      at := at + n;
      if n == 0 { PushEnd(); }
    }

    method PropertyDeleted(r: nat)
      requires Valid()
      modifies `props, `data, `at
      ensures Valid() && Out() == Deleted(old(Out()), r) && In() == old(In())
    {
      props := props - {r};
      if data.Some? && requestor == r { PushPiece(); }
    }

    method Answer(to: nat, target: Target, now: int) returns (ok: bool)
      requires Valid()
      modifies `props, `requestor, `data, `at, `started
      ensures Valid() && (Out(), ok) == Steps.Answer(old(Out()), to, target, now) && In() == old(In())
    {
      hide ToLatin1;
      if clip.None? { return false; }
      if target == About {
        props := props[to := Words];
        return true;
      }
      if target == Unknown { return false; }
      var text := Render(target);
      if |text| <= INCR_PIECE {
        props := props[to := Piece(text)];
        return true;
      }
      if data.Some? && now - started < PUSH_SECONDS { return false; }
      PushStart(to, text, now);
      return true;
    }

    /** The clipboard's text in the encoding asked for, a copy of its own. */
    method Render(target: Target) returns (text: Text)
      requires clip.Some?
      ensures text == Rendered(clip.value, target)
    {
      if target != Latin { return clip.value; }
      var out, n := Utf8ToLatin1(clip.value);
      return out[..n];
    }

    /** A transfer takes the place of any other, from its beginning. */
    method PushStart(to: nat, text: Text, now: int)
      requires Valid()
      modifies `props, `requestor, `data, `at, `started
      ensures Valid() && In() == old(In())
      ensures Out() == old(Out()).(push := Some(Push(to, text, 0, now)), props := old(props)[to := Size(|text|)])
    {
      PushEnd();
      requestor, data, at, started := to, Some(text), 0, now;
      props := props[to := Size(|text|)];
    }
  }
}
