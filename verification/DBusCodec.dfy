/** encode, decode and feed of server/src/dbus.ts, by way of the Writer and the Reader. */
module DBusCodec {
  import opened Bytes
  import opened DBusSignature
  import opened DBusValues
  import opened DBusRoundTrip
  import opened DBusWriter
  import opened DBusReader
  import M = DBusMessage
  import opened DBusMessage

  /** The text of a header field, if any. */
  method PushText(fields: seq<Value>, code: nat, sig: string, t: Option<M.Text>) returns (r: seq<Value>)
    ensures r == fields + TextField(code, sig, t)
  {
    if t.Some? && t.value != [] {
      return fields + [Field(code, sig, DBusValues.Text(t.value))];
    }
    assert fields + [] == fields;
    return fields;
  }

  method PushSerial(fields: seq<Value>, n: Option<nat>) returns (r: seq<Value>)
    ensures r == fields + SerialField(n)
  {
    if n.Some? { return fields + [Field(F_REPLY_SERIAL, "u", Num(n.value))]; }
    assert fields + [] == fields;
    return fields;
  }

  method PushSignature(fields: seq<Value>, sig: string) returns (r: seq<Value>)
    requires AsciiText(sig)
    ensures r == fields + SignatureField(sig)
  {
    if sig != "" { return fields + [Field(F_SIGNATURE, "g", DBusValues.Text(TextOf(sig)))]; }
    assert fields + [] == fields;
    return fields;
  }

  lemma Eight<T>(a: seq<T>, b: seq<T>, c: seq<T>, d: seq<T>, e: seq<T>, f: seq<T>, g: seq<T>, h: seq<T>)
    ensures [] + a + b + c + d + e + f + g + h == a + (b + (c + (d + (e + (f + (g + h))))))
  {
  }

  method HeaderFields(m: Message) returns (fields: seq<Value>)
    requires AsciiText(m.signature)
    ensures fields == Fields(m)
  {
    hide TextField, SerialField, SignatureField;
    fields := PushText([], F_PATH, "o", m.path);
    fields := PushText(fields, F_INTERFACE, "s", m.iface);
    fields := PushText(fields, F_MEMBER, "s", m.member);
    fields := PushText(fields, F_ERROR_NAME, "s", m.errorName);
    fields := PushSerial(fields, m.replySerial);
    fields := PushText(fields, F_DESTINATION, "s", m.destination);
    fields := PushText(fields, F_SENDER, "s", m.sender);
    fields := PushSignature(fields, m.signature);
    Eight(TextField(F_PATH, "o", m.path), TextField(F_INTERFACE, "s", m.iface), TextField(F_MEMBER, "s", m.member),
          TextField(F_ERROR_NAME, "s", m.errorName), SerialField(m.replySerial),
          TextField(F_DESTINATION, "s", m.destination), TextField(F_SENDER, "s", m.sender),
          SignatureField(m.signature));
  }

  method EncodeBody(m: Message, ghost types: seq<Type>) returns (body: seq<byte>)
    requires Sendable(m, types)
    ensures body == Body(m)
  {
    hide MarshalFields, Signatures, SignatureList, SplitSignature, HasType, WellFormed, Encode, AsciiText;
    var writer := new Writer();
    SplitJoined(types);
    ListLength(types);
    var split := SplitTypes(m.signature);
    writer.WriteFields(split.value, m.body, types);
    body := writer.buf[..writer.pos];
    assert [] + MarshalFields(split.value, m.body, 0, true) == MarshalFields(split.value, m.body, 0, true);
  }

  method EncodeMessage(m: Message, ghost types: seq<Type>) returns (bytes: seq<byte>)
    requires Sendable(m, types)
    ensures bytes == Encode(m)
  {
    hide Marshal, Fields, HasType, WellFormed, Body, Signature, AsciiText, Padding, Signatures;
    var body := EncodeBody(m, types);
    var fields := HeaderFields(m);
    HeaderTyped(m, types);
    FieldSignature();
    var w := new Writer();
    HeaderStart(m, w, |body|);
    assert w.pos == 12;
    w.Write("a(yv)", List(fields), FieldType);
    w.Align(8);
    bytes := w.buf[..w.pos] + body;
  }

  method HeaderStart(m: Message, w: Writer, bodyLength: nat)
    requires w.Valid() && w.pos == 0
    modifies w, w.buf
    ensures w.Valid() && (w.buf == old(w.buf) || fresh(w.buf))
    ensures w.Written() == FixedHeader(m, bodyLength)
  {
    hide Little;
    LeadBytes(m, w);
    Aligned4(bodyLength, 4);
    Aligned4(m.serial, 8);
    w.PutFixed(bodyLength, 4);
    w.PutFixed(m.serial, 4);
  }

  method LeadBytes(m: Message, w: Writer)
    requires w.Valid() && w.pos == 0
    modifies w, w.buf
    ensures w.Valid() && (w.buf == old(w.buf) || fresh(w.buf))
    ensures w.Written() == [LITTLE, m.kind % 256, m.flags % 256, 1] && w.pos == 4
  {
    w.PutByte(LITTLE);
    w.PutByte(m.kind % 256);
    w.PutByte(m.flags % 256);
    w.PutByte(1);
    assert w.Written() == [LITTLE, m.kind % 256, m.flags % 256, 1];
  }

  lemma Aligned4(n: nat, pos: nat)
    requires pos % 4 == 0
    ensures Fixed(n, 4, pos, true) == Little(n, 4)
  {
    assert Zeros(0) == [];
  }

  method DecodeMessage(buf: seq<byte>) returns (d: Decoded)
    ensures d == Decode(buf)
  {
    hide Read, ReadFields, SplitSignature, GetInt, Signature, Take;
    if |buf| < 16 { return Incomplete; }
    var le := buf[0] == LITTLE;
    var headerLength := Aligned(16 + GetInt(buf[12..16], le), 8);
    var length := headerLength + GetInt(buf[4..8], le);
    if |buf| < length { return Incomplete; }
    var serial := GetInt(buf[8..12], le);
    var r := new Reader(buf, le, 12);
    FieldSignature();
    var fields := r.Read("a(yv)");
    if fields.None? || !fields.value.List? { return Malformed; }
    var m := Bare(buf[1], buf[2], serial);
    ghost var all := TakeAll(m, fields.value.items);
    assert fields.value.items[0..] == fields.value.items;
    for i := 0 to |fields.value.items|
      invariant all == TakeAll(m, fields.value.items[i..])
    {
      assert fields.value.items[i..][1..] == fields.value.items[i + 1..];
      m := Take(m, fields.value.items[i]);
    }
    assert m == all;
    if m.signature == "" { return Whole(m, length); }
    var types := SplitTypes(m.signature);
    if types.None? { return Malformed; }
    var br := new Reader(buf[headerLength..length], le, 0);
    var items := br.ReadFields(types.value);
    if items.None? { return Malformed; }
    return Whole(m.(body := items.value.items), length);
  }

  /* ---- Feeding ---- */

  /** A connection's receiving side. */
  class Connection {
    var buffered: seq<byte>
    var dispatched: seq<Message>
    var destroyed: bool
    /** The chunks that have come so far. */
    ghost var chunks: seq<seq<byte>>

    ghost predicate Valid()
      reads this
    {
      !destroyed ==> Fed(chunks, dispatched, buffered)
    }

    constructor ()
      ensures Valid() && chunks == [] && buffered == [] && dispatched == [] && !destroyed
    {
      buffered, dispatched, destroyed, chunks := [], [], false, [];
    }

    /** Every whole message at the front of what has arrived, in order; a malformed one ends the connection. */
    method Feed(chunk: seq<byte>)
      requires Valid() && !destroyed
      modifies this
      ensures Valid() && chunks == old(chunks) + [chunk]
      ensures exists took :: Took(old(buffered) + chunk, took, buffered)
                             && dispatched == old(dispatched) + took
      ensures destroyed ==> Decode(buffered).Malformed?
      ensures !destroyed ==> Decode(buffered).Incomplete?
    {
      hide Decode, Took, Fed;
      ghost var before, taken := chunks, dispatched;
      ghost var left := buffered;
      chunks := chunks + [chunk];
      buffered := if |buffered| > 0 then buffered + chunk else chunk;
      assert buffered == old(buffered) + chunk;
      ghost var was := buffered;
      ghost var took: seq<Message> := [];
      TookNone(was);
      assert dispatched == old(dispatched) + took;
      while true
        invariant chunks == before + [chunk]
        invariant !destroyed && Took(was, took, buffered) && dispatched == old(dispatched) + took
        decreases |buffered|
      {
        var got := DecodeMessage(buffered);
        if got.Malformed? {
          destroyed := true;
          return;
        }
        if got.Incomplete? {
          FedNext(before, chunk, taken, left, took, buffered);
          return;
        }
        DecodeProgress(buffered);
        TookSnoc(was, took, buffered);
        took := took + [got.message];
        buffered := buffered[got.length..];
        dispatched := dispatched + [got.message];
      }
    }
  }

  /** A connection fed `chunks` from nothing: everything that is whole has been taken after each. */
  ghost predicate Fed(chunks: seq<seq<byte>>, dispatched: seq<Message>, buffered: seq<byte>)
    decreases |chunks|, 0
  {
    if chunks == [] then dispatched == [] && buffered == []
    else
      && !Decode(buffered).Whole?
      && exists n: nat, left :: FedLast(chunks, dispatched, buffered, n, left)
  }

  /** The last chunk found `n` messages dispatched and `left` buffered, and the rest was taken then. */
  ghost predicate FedLast(chunks: seq<seq<byte>>, dispatched: seq<Message>, buffered: seq<byte>,
                          n: nat, left: seq<byte>)
    requires chunks != []
    decreases |chunks| - 1, 1
  {
    && n <= |dispatched| && Fed(chunks[..|chunks| - 1], dispatched[..n], left)
    && Took(left + chunks[|chunks| - 1], dispatched[n..], buffered)
  }

  lemma FedNext(chunks: seq<seq<byte>>, chunk: seq<byte>, taken: seq<Message>, left: seq<byte>,
                took: seq<Message>, buffered: seq<byte>)
    requires Fed(chunks, taken, left) && Took(left + chunk, took, buffered) && !Decode(buffered).Whole?
    ensures Fed(chunks + [chunk], taken + took, buffered)
  {
    hide Decode, Took;
    assert (chunks + [chunk])[..|chunks|] == chunks;
    var n := |taken|;
    assert (taken + took)[..n] == taken && (taken + took)[n..] == took;
    assert FedLast(chunks + [chunk], taken + took, buffered, n, left);
  }

  lemma TookNone(b: seq<byte>)
    ensures Took(b, [], b)
  {
  }

  lemma DecodeProgress(b: seq<byte>)
    requires Decode(b).Whole?
    ensures 0 < Decode(b).length <= |b|
  {
    hide Read, ReadFields, GetInt, TakeAll, SplitSignature, Signature;
  }

  /** Decoding at the front, again and again, takes `b` to `rest` and gives `took`. */
  ghost predicate Took(b: seq<byte>, took: seq<Message>, rest: seq<byte>)
    decreases |took|
  {
    if took == [] then rest == b
    else
      && Decode(b).Whole? && Decode(b).message == took[0] && Decode(b).length <= |b|
      && Took(b[Decode(b).length..], took[1..], rest)
  }

  lemma {:induction false} TookSnoc(b: seq<byte>, took: seq<Message>, rest: seq<byte>)
    requires Took(b, took, rest) && Decode(rest).Whole? && Decode(rest).length <= |rest|
    ensures Took(b, took + [Decode(rest).message], rest[Decode(rest).length..])
    decreases |took|
  {
    hide Decode;
    var m := Decode(rest).message;
    if took == [] {
      assert ([] + [m])[1..] == [];
    } else {
      assert (took + [m])[1..] == took[1..] + [m];
      TookSnoc(b[Decode(b).length..], took[1..], rest);
    }
  }

  ghost predicate CanSend(m: Message) {
    exists types :: Sendable(m, types)
  }

  ghost predicate AllSendable(ms: seq<Message>) {
    forall i :: 0 <= i < |ms| ==> CanSend(ms[i])
  }

  lemma SendableFrom(ms: seq<Message>, n: nat)
    requires AllSendable(ms) && n <= |ms|
    ensures AllSendable(ms[n..])
  {
    hide CanSend;
    forall i | 0 <= i < |ms[n..]| ensures CanSend(ms[n..][i]) {
      assert ms[n..][i] == ms[n + i];
    }
  }

  function Encodings(ms: seq<Message>): seq<byte> {
    if ms == [] then [] else Encode(ms[0]) + Encodings(ms[1..])
  }

  lemma ShortIncomplete()
    ensures Decode([]).Incomplete?
  {
  }

  lemma {:induction false} EncodingsSplit(a: seq<Message>, b: seq<Message>)
    ensures Encodings(a + b) == Encodings(a) + Encodings(b)
  {
    hide Encode;
    if a == [] {
      assert a + b == b;
    } else {
      assert (a + b)[1..] == a[1..] + b;
      EncodingsSplit(a[1..], b);
    }
  }

  /** `took` are the first messages of a stream that starts with `b`, and `rest` the beginning of the next. */
  predicate Front(ms: seq<Message>, b: seq<byte>, took: seq<Message>, rest: seq<byte>) {
    && |took| <= |ms| && took == ms[..|took|] && b == Encodings(took) + rest
    && (|took| == |ms| ==> rest == [])
    && (|took| < |ms| ==> |rest| < |Encode(ms[|took|])| && rest == Encode(ms[|took|])[..|rest|])
  }

  lemma FrontJoin(ms: seq<Message>, n: nat, seen: seq<byte>, b: seq<byte>, took: seq<Message>, rest: seq<byte>)
    requires n <= |ms| && Front(ms[n..], b, took, rest) && seen == Encodings(ms[..n]) + b
    ensures Front(ms, seen, ms[..n] + took, rest)
  {
    hide Encode, Encodings;
    EncodingsSplit(ms[..n], took);
    assert ms[..n] + took == ms[..n + |took|];
    Regroup(Encodings(ms[..n]), Encodings(took), rest);
  }

  lemma FirstOnly(m: Message)
    ensures Encodings([m]) == Encode(m)
  {
    hide Encode;
    assert [m][1..] == [] && Encode(m) + [] == Encode(m);
  }

  /** What is taken from the beginning of a stream of messages is its first messages, as many as are whole. */
  lemma {:induction false} TakesSent(ms: seq<Message>, b: seq<byte>, took: seq<Message>, rest: seq<byte>)
    requires AllSendable(ms) && |b| <= |Encodings(ms)| && b == Encodings(ms)[..|b|]
    requires Took(b, took, rest) && !Decode(rest).Whole?
    ensures Front(ms, b, took, rest) && Decode(rest).Incomplete?
    decreases |ms|
  {
    hide Decode, Encode, Sendable;
    if ms == [] {
      ShortIncomplete();
      assert [] + rest == rest;
    } else {
      assert CanSend(ms[0]);
      var types :| Sendable(ms[0], types);
      var e := Encode(ms[0]);
      if |b| >= |e| {
        TakesFirst(ms, b, took, rest, types);
      } else {
        assert b == e[..|b|];
        DecodePrefix(ms[0], types, |b|);
        assert [] + rest == rest;
      }
    }
  }

  lemma {:induction false} TakesFirst(ms: seq<Message>, b: seq<byte>, took: seq<Message>, rest: seq<byte>,
                                      types: seq<Type>)
    requires AllSendable(ms) && |b| <= |Encodings(ms)| && b == Encodings(ms)[..|b|]
    requires Took(b, took, rest) && !Decode(rest).Whole?
    requires ms != [] && Sendable(ms[0], types) && |b| >= |Encode(ms[0])|
    ensures Front(ms, b, took, rest) && Decode(rest).Incomplete?
    decreases |ms|, 0
  {
    hide Decode, Encode, Sendable, AllSendable;
    var e, tail := Encode(ms[0]), b[|Encode(ms[0])|..];
    assert b == e + tail;
    DecodeEncode(ms[0], types, tail);
    SendableFrom(ms, 1);
    assert tail == Encodings(ms[1..])[..|tail|];
    TakesSent(ms[1..], tail, took[1..], rest);
    FirstOnly(ms[0]);
    assert ms[..1] == [ms[0]];
    FrontJoin(ms, 1, b, tail, took[1..], rest);
    assert took == ms[..1] + took[1..];
  }

  /**
   However a stream of messages is cut into chunks: after each, what has been
   dispatched is the first messages sent, what is buffered the beginning of the
   next, and together they are all the bytes that have arrived.
   */
  lemma ChunkTaken(ms: seq<Message>, seen: seq<byte>, dispatched: seq<Message>, buffered: seq<byte>,
                   chunk: seq<byte>, took: seq<Message>, rest: seq<byte>)
    requires AllSendable(ms) && Front(ms, seen, dispatched, buffered)
    requires |seen + chunk| <= |Encodings(ms)| && seen + chunk == Encodings(ms)[..|seen + chunk|]
    requires Took(buffered + chunk, took, rest) && !Decode(rest).Whole?
    ensures Front(ms, seen + chunk, dispatched + took, rest) && Decode(rest).Incomplete?
  {
    hide Encode, Encodings, Decode, Took, AllSendable;
    var n := |dispatched|;
    assert ms == ms[..n] + ms[n..];
    EncodingsSplit(ms[..n], ms[n..]);
    StreamSplit(Encodings(dispatched), buffered, chunk, seen, Encodings(ms[n..]), Encodings(ms));
    SendableFrom(ms, n);
    TakesSent(ms[n..], buffered + chunk, took, rest);
    FrontJoin(ms, n, seen + chunk, buffered + chunk, took, rest);
  }

  /**
   However a stream of messages is cut into chunks, up to wherever it has come:
   exactly the messages that are whole have been dispatched, in order, and what
   is buffered is the beginning of the next.
   */
  lemma {:induction false} StreamTaken(ms: seq<Message>, chunks: seq<seq<byte>>,
                                       dispatched: seq<Message>, buffered: seq<byte>)
    requires AllSendable(ms) && Fed(chunks, dispatched, buffered)
    requires |Concat(chunks)| <= |Encodings(ms)| && Concat(chunks) == Encodings(ms)[..|Concat(chunks)|]
    ensures Front(ms, Concat(chunks), dispatched, buffered)
    decreases |chunks|
  {
    hide Encode, Decode, Took, AllSendable;
    if chunks == [] {
      NothingSent(ms);
    } else {
      var before, chunk := chunks[..|chunks| - 1], chunks[|chunks| - 1];
      var n: nat, left :| FedLast(chunks, dispatched, buffered, n, left);
      hide Concat, Encodings, Fed, Front;
      assert chunks == before + [chunk];
      ConcatSnoc(before, chunk);
      PrefixOfPrefix(Concat(before), chunk, Encodings(ms));
      StreamTaken(ms, before, dispatched[..n], left);
      ChunkTaken(ms, Concat(before), dispatched[..n], left, chunk, dispatched[n..], buffered);
      assert dispatched[..n] + dispatched[n..] == dispatched;
    }
  }

  lemma PrefixOfPrefix(a: seq<byte>, b: seq<byte>, all: seq<byte>)
    requires |a + b| <= |all| && a + b == all[..|a + b|]
    ensures a == all[..|a|]
  {
    assert a == (a + b)[..|a|];
  }

  lemma NothingSent(ms: seq<Message>)
    ensures Front(ms, [], [], [])
  {
    if ms != [] { EncodedSize(ms[0]); }
  }

  lemma StreamSplit(d: seq<byte>, h: seq<byte>, c: seq<byte>, seen: seq<byte>, later: seq<byte>, all: seq<byte>)
    requires seen == d + h && all == d + later && |seen + c| <= |all| && seen + c == all[..|seen + c|]
    ensures |h + c| <= |later| && h + c == later[..|h + c|] && seen + c == d + (h + c)
  {
    assert (seen + c)[|d|..] == h + c;
    assert all[|d|..] == later;
  }
}
