/**
 A whole message as the D-Bus Specification has it, section "Message Format":
 what is put out is one, and every one, in either byte order and with its header
 fields in any order, is read for what it says.
 */
module DBusMessageFormat {
  import opened Bytes
  import opened DBusSignature
  import opened DBusValues
  import opened DBusRoundTrip
  import opened DBusFormat
  import opened DBusMessage

  /** What the bytes of a message say: numbers of its header, fields with their codes, and a body. */
  datatype Said = Said(kind: nat, flags: nat, serial: nat, fields: seq<Value>, types: seq<Type>, body: seq<Value>)

  /** Where the fields of a header end, and where the body begins. */
  function BodyStart(n: nat): nat {
    n + Gap(n, 8)
  }

  /** The header's fields take the bytes from twelve to `n`. */
  ghost predicate SaysWith(b: seq<byte>, le: bool, m: Said, n: nat)
    requires |m.types| == |m.body|
  {
    && 16 <= n <= BodyStart(n) <= |b|
    && b[0] == (if le then 'l' else 'B') as int
    && b[1] == m.kind && b[2] == m.flags && b[3] == 1
    && Place(b[4..8], le) == |b| - BodyStart(n)
    && Place(b[8..12], le) == m.serial
    && Wire(Array(Struct([Basic('y'), Variant])), List(m.fields), 12, le, b[12..n])
    && AllZero(b[n..BodyStart(n)])
    && WireFields(m.types, m.body, 0, le, b[BodyStart(n)..])
  }

  ghost predicate Says(b: seq<byte>, le: bool, m: Said)
    requires |m.types| == |m.body|
  {
    exists n :: SaysWith(b, le, m, n)
  }

  /* ---- Header fields by their codes ---- */

  /** A field: a code, and a variant. */
  predicate IsUnder(field: Value, code: nat) {
    field.List? && |field.items| == 2 && field.items[0] == Num(code) && field.items[1].Var?
  }

  /** The text under a code, of the last field that has one. */
  function TextUnder(fields: seq<Value>, code: nat): Option<DBusMessage.Text> {
    if fields == [] then None
    else
      var last := fields[|fields| - 1];
      if IsUnder(last, code) && last.items[1].value.Text? then Some(last.items[1].value.text)
      else TextUnder(fields[..|fields| - 1], code)
  }

  function NumberUnder(fields: seq<Value>, code: nat): Option<nat> {
    if fields == [] then None
    else
      var last := fields[|fields| - 1];
      if IsUnder(last, code) && last.items[1].value.Num? && last.items[1].value.n >= 0
      then Some(last.items[1].value.n)
      else NumberUnder(fields[..|fields| - 1], code)
  }

  /** A message means what its fields say under the codes of the specification. */
  predicate Means(m: Message, s: Said) {
    && m.kind == s.kind && m.flags == s.flags && m.serial == s.serial && m.body == s.body
    && m.path == TextUnder(s.fields, 1)
    && m.iface == TextUnder(s.fields, 2)
    && m.member == TextUnder(s.fields, 3)
    && m.errorName == TextUnder(s.fields, 4)
    && m.replySerial == NumberUnder(s.fields, 5)
    && m.destination == TextUnder(s.fields, 6)
    && m.sender == TextUnder(s.fields, 7)
    && m.signature == match TextUnder(s.fields, 8) case Some(t) => StringOf(t) case None => ""
  }

  lemma UnderLast(before: seq<Value>, last: Value, code: nat)
    ensures TextUnder(before + [last], code) ==
      if IsUnder(last, code) && last.items[1].value.Text? then Some(last.items[1].value.text)
      else TextUnder(before, code)
    ensures NumberUnder(before + [last], code) ==
      if IsUnder(last, code) && last.items[1].value.Num? && last.items[1].value.n >= 0
      then Some(last.items[1].value.n) else NumberUnder(before, code)
  {
    assert (before + [last])[..|before|] == before;
  }

  /** One field more means what it says under its code, and nothing under any other. */
  lemma TakeMeans(m: Message, before: seq<Value>, last: Value, s: Said)
    requires Means(m, s.(fields := before))
    ensures Means(Take(m, last), s.(fields := before + [last]))
  {
    UnderLast(before, last, 1);
    UnderLast(before, last, 2);
    UnderLast(before, last, 3);
    UnderLast(before, last, 4);
    UnderLast(before, last, 5);
    UnderLast(before, last, 6);
    UnderLast(before, last, 7);
    UnderLast(before, last, 8);
    hide StringOf, TextUnder, NumberUnder;
    if !last.List? || |last.items| != 2 || !last.items[0].Num? || !last.items[1].Var? {
      assert forall c: nat :: !IsUnder(last, c);
    } else {
      var code := last.items[0].n;
      assert forall c: nat :: IsUnder(last, c) <==> c == code;
      hide IsUnder;
    }
  }

  lemma {:induction false} TakenMeans(m: Message, fields: seq<Value>, s: Said)
    requires m == TakeAll(Bare(s.kind, s.flags, s.serial), fields) && s.fields == fields && s.body == []
    ensures Means(m, s)
    decreases |fields|
  {
    if fields != [] {
      var before, last := fields[..|fields| - 1], fields[|fields| - 1];
      var bare := Bare(s.kind, s.flags, s.serial);
      TakenMeans(TakeAll(bare, before), before, s.(fields := before));
      hide Take, TextUnder, NumberUnder;
      assert fields == before + [last];
      TakeSplit(bare, before, [last]);
      OneTaken(TakeAll(bare, before), last);
      TakeMeans(TakeAll(bare, before), before, last, s);
    }
  }

  /* ---- What is put out ---- */

  function Given(code: nat, sig: string, t: Option<DBusMessage.Text>): seq<Value> {
    match t
    case Some(text) => if text == [] then [] else [List([Num(code), Var(sig, DBusValues.Text(text))])]
    case None => []
  }

  /**
   The fields of a message that are set, and not to nothing, each under its own
   code and of its own type, in the order of the codes.
   */
  function InOrder(m: Message): seq<Value>
    requires AsciiText(m.signature)
  {
    Given(1, "o", m.path) + Given(2, "s", m.iface) + Given(3, "s", m.member) + Given(4, "s", m.errorName)
    + (match m.replySerial case Some(n) => [List([Num(5), Var("u", Num(n))])] case None => [])
    + Given(6, "s", m.destination) + Given(7, "s", m.sender)
    + Given(8, "g", if m.signature == "" then None else Some(TextOf(m.signature)))
  }

  lemma FieldsInOrder(m: Message)
    requires AsciiText(m.signature)
    ensures Fields(m) == InOrder(m)
  {
    GivenField(1, "o", m.path);
    GivenField(2, "s", m.iface);
    GivenField(3, "s", m.member);
    GivenField(4, "s", m.errorName);
    GivenField(6, "s", m.destination);
    GivenField(7, "s", m.sender);
    GivenSignature(m.signature);
    hide AsciiText, TextOf, TextField, SignatureField, Given;
    EightParts(TextField(F_PATH, "o", m.path), TextField(F_INTERFACE, "s", m.iface),
               TextField(F_MEMBER, "s", m.member), TextField(F_ERROR_NAME, "s", m.errorName),
               SerialField(m.replySerial), TextField(F_DESTINATION, "s", m.destination),
               TextField(F_SENDER, "s", m.sender), SignatureField(m.signature));
  }

  lemma GivenField(code: nat, sig: string, t: Option<DBusMessage.Text>)
    ensures TextField(code, sig, t) == Given(code, sig, t)
  {
  }

  lemma GivenSignature(sig: string)
    requires AsciiText(sig)
    ensures SignatureField(sig) == Given(8, "g", if sig == "" then None else Some(TextOf(sig)))
  {
    if sig != "" { assert |TextOf(sig)| == |sig|; }
  }

  lemma EightParts<T>(a: seq<T>, b: seq<T>, c: seq<T>, d: seq<T>, e: seq<T>, f: seq<T>, g: seq<T>, h: seq<T>)
    ensures a + (b + (c + (d + (e + (f + (g + h)))))) == a + b + c + d + e + f + g + h
  {
  }

  /** Four bytes of a message are the number put there. */
  lemma WordAt(b: seq<byte>, i: nat, n: nat)
    requires i + 4 <= |b| && b[i..i + 4] == Little(n, 4) && n < TWO_32
    ensures Place(b[i..i + 4], true) == n
  {
    Powers();
    PlaceLittle(n, 4, b[i..i + 4]);
  }

  /** What is put out for a message says that message, in bytes that are nobody's but the format's. */
  lemma EncodeSays(m: Message, types: seq<Type>)
    requires Sendable(m, types)
    ensures Says(Encode(m), true, Said(m.kind, m.flags, m.serial, InOrder(m), types, m.body))
  {
    hide Encode, Wire, WireFields, InOrder, FieldArray, Fields, Body, Place, AllZero, Gap, Fronted, SaysWith;
    FieldsInOrder(m);
    EncodedParts(m);
    EncodedFields(m, types);
    EncodedBody(m, types);
    var s := Said(m.kind, m.flags, m.serial, InOrder(m), types, m.body);
    FrontedSays(Encode(m), m, s, 12 + |FieldArray(m)|);
  }

  lemma FrontedSays(b: seq<byte>, m: Message, s: Said, n: nat)
    requires |s.types| == |s.body| && 16 <= n <= BodyStart(n) <= |b| && Fronted(b[..12], m, |b| - BodyStart(n))
    requires s.kind == m.kind && s.flags == m.flags && s.serial == m.serial
    requires Wire(Array(Struct([Basic('y'), Variant])), List(s.fields), 12, true, b[12..n])
    requires AllZero(b[n..BodyStart(n)]) && WireFields(s.types, s.body, 0, true, b[BodyStart(n)..])
    ensures SaysWith(b, true, s, n)
  {
    hide Wire, WireFields, Place, AllZero, Gap;
    assert b[..12][4..8] == b[4..8] && b[..12][8..12] == b[8..12];
  }

  /** What a reader takes from the first twelve bytes. */
  predicate Fronted(front: seq<byte>, m: Message, body: nat)
    requires |front| == 12
  {
    && front[0] == 108 && front[1] == m.kind && front[2] == m.flags && front[3] == 1
    && Place(front[4..8], true) == body && Place(front[8..12], true) == m.serial
  }

  lemma FixedFronted(m: Message, body: nat)
    requires m.kind < 256 && m.flags < 256 && m.serial < TWO_32 && body < TWO_32
    ensures |FixedHeader(m, body)| == 12 && Fronted(FixedHeader(m, body), m, body)
  {
    hide Little, Place;
    var head := FixedHeader(m, body);
    assert head[4..8] == Little(body, 4) && head[8..12] == Little(m.serial, 4);
    WordAt(head, 4, body);
    WordAt(head, 8, m.serial);
  }

  lemma EncodedParts(m: Message)
    requires m.kind < 256 && m.flags < 256 && m.serial < TWO_32 && |Encode(m)| < TWO_32
    ensures var b, n := Encode(m), 12 + |FieldArray(m)|;
      && 16 <= n <= BodyStart(n) <= |b| && Fronted(b[..12], m, |b| - BodyStart(n))
      && b[12..n] == FieldArray(m) && AllZero(b[n..BodyStart(n)]) && b[BodyStart(n)..] == Body(m)
  {
    EncodedCuts(m);
    FixedFronted(m, |Body(m)|);
    hide FieldArray, Body, Encode, Gap, FixedHeader, Fronted;
  }

  lemma EncodedCuts(m: Message)
    ensures var b, n := Encode(m), 12 + |FieldArray(m)|;
      && 16 <= n <= BodyStart(n) <= |b| && |b| == BodyStart(n) + |Body(m)|
      && b[..12] == FixedHeader(m, |Body(m)|) && b[12..n] == FieldArray(m)
      && AllZero(b[n..BodyStart(n)]) && b[BodyStart(n)..] == Body(m)
  {
    FieldArrayShape(m);
    EncodedSize(m);
    hide FieldArray, Body, FixedHeader, Encode, Gap, AllZero, Zeros, Aligned;
    var a, n := FieldArray(m), 12 + |FieldArray(m)|;
    var head, pad := FixedHeader(m, |Body(m)|), Padding(n, 8);
    PaddingGap(n);
    FourParts(Encode(m), head, a, pad, Body(m));
    assert |a| >= 4;
  }

  lemma PaddingGap(n: nat)
    ensures |Padding(n, 8)| == Gap(n, 8) && AllZero(Padding(n, 8))
  {
    GapIs(n, 8);
  }

  lemma FourParts(b: seq<byte>, w: seq<byte>, x: seq<byte>, y: seq<byte>, z: seq<byte>)
    requires b == w + x + y + z
    ensures b[..|w|] == w && b[|w|..|w| + |x|] == x
    ensures b[|w| + |x|..|w| + |x| + |y|] == y && b[|w| + |x| + |y|..] == z
  {
  }

  lemma EncodedFields(m: Message, types: seq<Type>)
    requires Sendable(m, types)
    ensures Wire(Array(Struct([Basic('y'), Variant])), List(Fields(m)), 12, true, FieldArray(m))
  {
    hide Wire, Marshal, Encode, Fields;
    HeaderTyped(m, types);
    EncodedSize(m);
    WireIs(FieldType, List(Fields(m)), 12, true, FieldArray(m));
  }

  lemma EncodedBody(m: Message, types: seq<Type>)
    requires Sendable(m, types)
    ensures WireFields(types, m.body, 0, true, Body(m))
  {
    hide WireFields, MarshalFields, Encode, Signature, SplitSignature, HasType, WellFormed;
    SplitJoined(types);
    ListLength(types);
    EncodedSize(m);
    FieldsAre(types, m.body, 0, true, Body(m));
  }

  /* ---- What is read ---- */

  /** A message of well-formed types, its signature that of its body. */
  ghost predicate Proper(s: Said) {
    && |s.types| == |s.body|
    && (forall i :: 0 <= i < |s.types| ==> WellFormed(s.types[i]) && HasType(s.body[i], s.types[i]))
    && HasType(List(s.fields), Array(Struct([Basic('y'), Variant])))
    && Signatures(s.types) == match TextUnder(s.fields, 8) case Some(t) => StringOf(t) case None => ""
  }

  lemma WordRead(b: seq<byte>, le: bool)
    requires |b| == 4
    ensures GetInt(b, le) == Place(b, le)
  {
    Powers();
    PlaceIs(0, 4, le, b);
    PlaceIs(Place(b, le), 4, le, b);
    IntBack(Place(b, le), 4, le);
  }

  /** The length of the field array, as it stands in the message. */
  lemma FieldsLength(a: seq<byte>, fields: seq<Value>, le: bool)
    requires Wire(Array(Struct([Basic('y'), Variant])), List(fields), 12, le, a)
    ensures |a| >= 4 && Place(a[..4], le) == |a| - 4
  {
    hide WireItems, Place;
    assert Gap(12, 4) == 0 && Gap(16, 8) == 0;
    assert a[..4][0..] == a[..4];
  }

  /** The lengths a reader takes from the first sixteen bytes. */
  lemma LengthsRead(b: seq<byte>, le: bool, s: Said, n: nat, buf: seq<byte>)
    requires |s.types| == |s.body| && SaysWith(b, le, s, n) && |buf| >= |b| && buf[..|b|] == b
    ensures HeaderLength(buf) == BodyStart(n) && MessageLength(buf) == |b|
    ensures GetInt(buf[8..12], le) == s.serial && (buf[0] == LITTLE <==> le) && buf[1] == s.kind && buf[2] == s.flags
  {
    hide Wire, WireFields, Place, GetInt, AllZero;
    var a := b[12..n];
    FieldsLength(a, s.fields, le);
    assert a[..4] == b[12..16] == buf[12..16] && buf[4..8] == b[4..8] && buf[8..12] == b[8..12];
    assert buf[0] == b[0] && buf[1] == b[1] && buf[2] == b[2];
    WordRead(buf[12..16], le);
    WordRead(buf[4..8], le);
    WordRead(buf[8..12], le);
    GapIs(n, 8);
  }

  lemma HeaderFormed()
    ensures WellFormed(FieldType)
  {
  }

  lemma FieldsRead(b: seq<byte>, le: bool, s: Said, n: nat, buf: seq<byte>)
    requires |s.types| == |s.body| && Proper(s) && SaysWith(b, le, s, n)
    requires |b| < TWO_32 && |buf| >= |b| && buf[..|b|] == b
    ensures Read(Signature(FieldType), buf, 12, le) == Some((List(s.fields), n))
  {
    hide Wire, WireFields, Place, AllZero, Marshal, Read, HasType, WellFormed;
    hide Signature, Signatures, TextUnder, StringOf;
    HeaderFormed();
    var a := b[12..n];
    WireIs(FieldType, List(s.fields), 12, le, a);
    assert buf[12..12 + |a|] == a;
    ReadBack(FieldType, List(s.fields), buf, 12, le);
  }

  lemma BodyIsRead(b: seq<byte>, le: bool, s: Said, n: nat)
    requires |s.types| == |s.body| && Proper(s) && SaysWith(b, le, s, n) && |b| < TWO_32
    ensures SplitSignature(Signatures(s.types)).Some?
    ensures ReadFields(SplitSignature(Signatures(s.types)).value, b[BodyStart(n)..], 0, le) ==
      Some((s.body, |b| - BodyStart(n)))
    ensures Signatures(s.types) == "" ==> s.body == []
  {
    hide Wire, WireFields, Place, AllZero, MarshalFields, ReadFields, HasType, WellFormed, Signature, SplitSignature;
    SplitJoined(s.types);
    ListLength(s.types);
    if s.types != [] { SignatureSome(s.types); }
    var body := b[BodyStart(n)..];
    FieldsAre(s.types, s.body, 0, le, body);
    assert body[0..0 + |body|] == body;
    FieldsBack(s.types, s.body, body, 0, le);
  }

  /**
   Whoever wrote it, in either byte order and with its fields in any order: a
   message is read for what it says, each field by its code, and to its end.
   */
  lemma DecodeSays(b: seq<byte>, le: bool, s: Said, rest: seq<byte>) returns (m: Message)
    requires Proper(s) && Says(b, le, s) && |b| < TWO_32
    ensures Means(m, s) && Decode(b + rest) == Whole(m, |b|)
  {
    var n := WhereSaid(b, le, s);
    hide TakeAll, TextUnder, NumberUnder, HasType, WellFormed, Signature, Signatures, StringOf, SaysWith, Says;
    var taken := TakeAll(Bare(s.kind, s.flags, s.serial), s.fields);
    m := taken.(body := s.body);
    TakenMeans(taken, s.fields, s.(types := [], body := []));
    BodyCut(b, rest, BodyStart(n));
    SaysRead(b, le, s, n, b + rest);
    hide Read, ReadFields, SplitSignature, HeaderLength, MessageLength, GetInt, Gap, Means;
  }

  lemma WhereSaid(b: seq<byte>, le: bool, s: Said) returns (n: nat)
    requires |s.types| == |s.body| && Says(b, le, s)
    ensures SaysWith(b, le, s, n) && 16 <= n <= BodyStart(n) <= |b|
  {
    hide Wire, WireFields, Place, AllZero, Gap;
    n :| SaysWith(b, le, s, n);
  }

  lemma SaysRead(b: seq<byte>, le: bool, s: Said, n: nat, buf: seq<byte>)
    requires Proper(s) && SaysWith(b, le, s, n) && |b| < TWO_32 && |buf| >= |b| && buf[..|b|] == b
    requires BodyStart(n) <= |b| ==> buf[BodyStart(n)..|b|] == b[BodyStart(n)..]
    ensures var m := TakeAll(Bare(s.kind, s.flags, s.serial), s.fields);
      m.signature == Signatures(s.types) && m.body == [] ==> Decode(buf) == Whole(m.(body := s.body), |b|)
  {
    LengthsRead(b, le, s, n, buf);
    FieldsRead(b, le, s, n, buf);
    BodyIsRead(b, le, s, n);
    assert 16 <= n <= BodyStart(n) <= |b|;
    hide TakeAll, Read, ReadFields, SplitSignature, HeaderLength, MessageLength, GetInt, Gap, SaysWith, Proper;
    hide Signature, Signatures;
  }

  lemma BodyCut(b: seq<byte>, rest: seq<byte>, n: nat)
    requires n <= |b|
    ensures (b + rest)[n..|b|] == b[n..] && (b + rest)[..|b|] == b
  {
  }
}
