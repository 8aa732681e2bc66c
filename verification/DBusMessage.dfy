/** Whole messages: the D-Bus Specification, section "Message Format", as server/src/dbus.ts has it. */
module DBusMessage {
  import opened Bytes
  import opened DBusSignature
  import opened DBusValues
  import opened DBusRoundTrip

  type Text = seq<byte>

  /** Header strings and the reply serial may be absent; a signature of "" is none. */
  datatype Message = Message(
    kind: nat,
    flags: nat,
    serial: nat,
    path: Option<Text>,
    iface: Option<Text>,
    member: Option<Text>,
    errorName: Option<Text>,
    replySerial: Option<nat>,
    destination: Option<Text>,
    sender: Option<Text>,
    signature: string,
    body: seq<Value>)

  const LITTLE: byte := 108 // 'l'

  const F_PATH := 1
  const F_INTERFACE := 2
  const F_MEMBER := 3
  const F_ERROR_NAME := 4
  const F_REPLY_SERIAL := 5
  const F_DESTINATION := 6
  const F_SENDER := 7
  const F_SIGNATURE := 8

  const FieldType := Array(Struct([Basic('y'), Variant]))

  /* ---- Header fields ---- */

  function Field(code: nat, sig: string, v: Value): Value {
    List([Num(code), Var(sig, v)])
  }

  /** A string's field, if there is a string and it is not empty. */
  function TextField(code: nat, sig: string, t: Option<Text>): seq<Value> {
    if t.Some? && t.value != [] then [Field(code, sig, DBusValues.Text(t.value))] else []
  }

  function SerialField(n: Option<nat>): seq<Value> {
    if n.Some? then [Field(F_REPLY_SERIAL, "u", Num(n.value))] else []
  }

  function SignatureField(sig: string): seq<Value> {
    if sig != "" && AsciiText(sig) then [Field(F_SIGNATURE, "g", DBusValues.Text(TextOf(sig)))] else []
  }

  function Fields(m: Message): seq<Value> {
    TextField(F_PATH, "o", m.path) + (TextField(F_INTERFACE, "s", m.iface) + (TextField(F_MEMBER, "s", m.member)
    + (TextField(F_ERROR_NAME, "s", m.errorName) + (SerialField(m.replySerial)
    + (TextField(F_DESTINATION, "s", m.destination) + (TextField(F_SENDER, "s", m.sender)
    + SignatureField(m.signature)))))))
  }

  /** One field taken into the message; a code that is not known, or a value of another type, is passed over. */
  function Take(m: Message, field: Value): Message {
    if !field.List? || |field.items| != 2 || !field.items[0].Num? || !field.items[1].Var? then m
    else
      var code, v := field.items[0].n, field.items[1].value;
      if code == F_REPLY_SERIAL then
        if v.Num? && v.n >= 0 then m.(replySerial := Some(v.n)) else m
      else if !v.Text? then m
      else if code == F_PATH then m.(path := Some(v.text))
      else if code == F_INTERFACE then m.(iface := Some(v.text))
      else if code == F_MEMBER then m.(member := Some(v.text))
      else if code == F_ERROR_NAME then m.(errorName := Some(v.text))
      else if code == F_DESTINATION then m.(destination := Some(v.text))
      else if code == F_SENDER then m.(sender := Some(v.text))
      else if code == F_SIGNATURE then m.(signature := StringOf(v.text))
      else m
  }

  function TakeAll(m: Message, fields: seq<Value>): Message
    decreases |fields|
  {
    if fields == [] then m else TakeAll(Take(m, fields[0]), fields[1..])
  }

  lemma {:induction false} TakeSplit(m: Message, a: seq<Value>, b: seq<Value>)
    ensures TakeAll(m, a + b) == TakeAll(TakeAll(m, a), b)
    decreases |a|
  {
    if a == [] {
      assert a + b == b;
    } else {
      assert (a + b)[1..] == a[1..] + b;
      TakeSplit(Take(m, a[0]), a[1..], b);
    }
  }

  /* ---- Encoding ---- */

  function Body(m: Message): seq<byte> {
    var types := SplitSignature(m.signature);
    if types.None? || |types.value| != |m.body| then [] else MarshalFields(types.value, m.body, 0, true)
  }

  /** Endianness, type, flags, version; the lengths of body and, within the array, of the fields. */
  function FixedHeader(m: Message, bodyLength: nat): seq<byte> {
    [LITTLE, m.kind % 256, m.flags % 256, 1] + Little(bodyLength, 4) + Little(m.serial, 4)
  }

  function FieldArray(m: Message): seq<byte> {
    Marshal(Signature(FieldType), List(Fields(m)), 12, true)
  }

  function Header(m: Message): seq<byte> {
    var h := FixedHeader(m, |Body(m)|) + FieldArray(m);
    h + Padding(|h|, 8)
  }

  function Encode(m: Message): seq<byte> {
    Header(m) + Body(m)
  }

  /* ---- Decoding ---- */

  /** null, an exception, or a message and its length. */
  datatype Decoded = Incomplete | Malformed | Whole(message: Message, length: nat)

  /** Of a buffer of sixteen bytes or more: where its header ends, and how long the message is. */
  function HeaderLength(buf: seq<byte>): nat
    requires |buf| >= 16
  {
    Aligned(16 + GetInt(buf[12..16], buf[0] == LITTLE), 8)
  }

  function MessageLength(buf: seq<byte>): nat
    requires |buf| >= 16
  {
    HeaderLength(buf) + GetInt(buf[4..8], buf[0] == LITTLE)
  }

  function Bare(kind: nat, flags: nat, serial: nat): Message {
    Message(kind, flags, serial, None, None, None, None, None, None, None, "", [])
  }

  function Decode(buf: seq<byte>): Decoded {
    if |buf| < 16 || |buf| < MessageLength(buf) then Incomplete
    else
      var le := buf[0] == LITTLE;
      var fields := Read(Signature(FieldType), buf, 12, le);
      if fields.None? || !fields.value.0.List? then Malformed
      else
        var m := TakeAll(Bare(buf[1], buf[2], GetInt(buf[8..12], le)), fields.value.0.items);
        DecodeBody(m, buf[HeaderLength(buf)..MessageLength(buf)], le, MessageLength(buf))
  }

  function DecodeBody(m: Message, body: seq<byte>, le: bool, length: nat): Decoded {
    if m.signature == "" then Whole(m, length)
    else
      var types := SplitSignature(m.signature);
      if types.None? then Malformed
      else
        var items := ReadFields(types.value, body, 0, le);
        if items.None? then Malformed else Whole(m.(body := items.value.0), length)
  }

  /* ---- Reading back what was encoded ---- */

  predicate TextFits(t: Option<Text>) {
    t.Some? ==> t.value != []
  }

  /** What a caller may send: header strings not empty, numbers in their fields, a body of the signature's types. */
  ghost predicate Sendable(m: Message, types: seq<Type>) {
    && m.kind < 256 && m.flags < 256 && m.serial < TWO_32
    && TextFits(m.path) && TextFits(m.iface) && TextFits(m.member) && TextFits(m.errorName)
    && TextFits(m.destination) && TextFits(m.sender)
    && (m.replySerial.Some? ==> m.replySerial.value < TWO_32)
    && AsciiText(m.signature) && m.signature == Signatures(types)
    && |types| == |m.body|
    && (forall i :: 0 <= i < |types| ==> WellFormed(types[i]) && HasType(m.body[i], types[i]))
    && |Encode(m)| < TWO_32
  }

  lemma OneTaken(m: Message, v: Value)
    ensures TakeAll(m, [v]) == Take(m, v) && TakeAll(m, []) == m
  {
    assert [v][1..] == [];
  }

  lemma TextTaken(m: Message, code: nat, sig: string, t: Option<Text>)
    requires TextFits(t)
    ensures TakeAll(m, TextField(code, sig, t)) ==
      if t.Some? then Take(m, Field(code, sig, DBusValues.Text(t.value))) else m
  {
    if t.Some? { OneTaken(m, Field(code, sig, DBusValues.Text(t.value))); }
  }

  /** The fields of a message, taken into an empty one, give the message. */
  lemma FieldsTaken(m: Message, types: seq<Type>)
    requires Sendable(m, types)
    ensures TakeAll(Bare(m.kind, m.flags, m.serial), Fields(m)) == m.(body := [])
  {
    hide Encode, HasType, WellFormed, AsciiText, TakeAll;
    var f8 := SignatureField(m.signature);
    var f7 := TextField(F_SENDER, "s", m.sender) + f8;
    var f6 := TextField(F_DESTINATION, "s", m.destination) + f7;
    var f5 := SerialField(m.replySerial) + f6;
    var f4 := TextField(F_ERROR_NAME, "s", m.errorName) + f5;
    var f3 := TextField(F_MEMBER, "s", m.member) + f4;
    var f2 := TextField(F_INTERFACE, "s", m.iface) + f3;
    var m0 := Bare(m.kind, m.flags, m.serial);
    TakeSplit(m0, TextField(F_PATH, "o", m.path), f2);
    TextTaken(m0, F_PATH, "o", m.path);
    var m1 := m0.(path := m.path);
    TakeSplit(m1, TextField(F_INTERFACE, "s", m.iface), f3);
    TextTaken(m1, F_INTERFACE, "s", m.iface);
    var m2 := m1.(iface := m.iface);
    TakeSplit(m2, TextField(F_MEMBER, "s", m.member), f4);
    TextTaken(m2, F_MEMBER, "s", m.member);
    var m3 := m2.(member := m.member);
    TakeSplit(m3, TextField(F_ERROR_NAME, "s", m.errorName), f5);
    TextTaken(m3, F_ERROR_NAME, "s", m.errorName);
    var m4 := m3.(errorName := m.errorName);
    TakeSplit(m4, SerialField(m.replySerial), f6);
    SerialTaken(m4, m.replySerial);
    var m5 := m4.(replySerial := m.replySerial);
    TakeSplit(m5, TextField(F_DESTINATION, "s", m.destination), f7);
    TextTaken(m5, F_DESTINATION, "s", m.destination);
    var m6 := m5.(destination := m.destination);
    TakeSplit(m6, TextField(F_SENDER, "s", m.sender), f8);
    TextTaken(m6, F_SENDER, "s", m.sender);
    var m7 := m6.(sender := m.sender);
    SignatureTaken(m7, m.signature);
  }

  lemma SerialTaken(m: Message, n: Option<nat>)
    requires m.replySerial == None
    ensures TakeAll(m, SerialField(n)) == m.(replySerial := n)
  {
    if n.Some? { OneTaken(m, Field(F_REPLY_SERIAL, "u", Num(n.value))); }
  }

  lemma SignatureTaken(m: Message, sig: string)
    requires AsciiText(sig) && m.signature == ""
    ensures TakeAll(m, SignatureField(sig)) == m.(signature := sig)
  {
    if sig != "" {
      TextBack(sig);
      OneTaken(m, Field(F_SIGNATURE, "g", DBusValues.Text(TextOf(sig))));
    }
  }

  /** Every header field is of the type its place in the header has. */
  lemma FieldTyped(code: nat, c: char, v: Value)
    requires code < 256 && c in BASIC_CODES && HasType(v, Basic(c))
    ensures HasType(Field(code, [c], v), Struct([Basic('y'), Variant]))
  {
    BasicIsPlain(c);
    assert WellFormed(Basic(c)) && Signature(Basic(c)) == [c] && HasType(v, Basic(c));
    BasicAscii(c);
    assert HasType(Var([c], v), Variant);
    assert HasType(Num(code), Basic('y'));
  }

  lemma BasicAscii(c: char)
    requires c in BASIC_CODES
    ensures AsciiText([c])
  {
  }

  ghost predicate FieldsTyped(fields: seq<Value>) {
    forall i :: 0 <= i < |fields| ==> HasType(fields[i], Struct([Basic('y'), Variant]))
  }

  lemma TextFieldTyped(code: nat, c: char, t: Option<Text>)
    requires code < 256 && (c == 's' || c == 'o')
    ensures FieldsTyped(TextField(code, [c], t))
  {
    if t.Some? {
      assert HasType(DBusValues.Text(t.value), Basic(c));
      FieldTyped(code, c, DBusValues.Text(t.value));
    }
  }

  lemma SerialFieldTyped(n: Option<nat>)
    requires n.Some? ==> n.value < TWO_32
    ensures FieldsTyped(SerialField(n))
  {
    if n.Some? { FieldTyped(F_REPLY_SERIAL, 'u', Num(n.value)); }
  }

  lemma SignatureFieldTyped(sig: string)
    requires AsciiText(sig)
    ensures FieldsTyped(SignatureField(sig))
  {
    if sig != "" { FieldTyped(F_SIGNATURE, 'g', DBusValues.Text(TextOf(sig))); }
  }

  lemma ArrayTyped(fields: seq<Value>)
    requires FieldsTyped(fields)
    ensures HasType(List(fields), FieldType) && WellFormed(FieldType)
  {
  }

  lemma HeaderTyped(m: Message, types: seq<Type>)
    requires Sendable(m, types)
    ensures HasType(List(Fields(m)), FieldType) && WellFormed(FieldType)
  {
    hide HasType, Encode, FieldsTyped, Fields, WellFormed, Signatures;
    TextFieldTyped(F_PATH, 'o', m.path);
    TextFieldTyped(F_INTERFACE, 's', m.iface);
    TextFieldTyped(F_MEMBER, 's', m.member);
    TextFieldTyped(F_ERROR_NAME, 's', m.errorName);
    TextFieldTyped(F_DESTINATION, 's', m.destination);
    TextFieldTyped(F_SENDER, 's', m.sender);
    SerialFieldTyped(m.replySerial);
    SignatureFieldTyped(m.signature);
    FieldsAll(m);
    ArrayTyped(Fields(m));
  }

  lemma FieldsAll(m: Message)
    requires FieldsTyped(TextField(F_PATH, "o", m.path)) && FieldsTyped(TextField(F_INTERFACE, "s", m.iface))
    requires FieldsTyped(TextField(F_MEMBER, "s", m.member)) && FieldsTyped(TextField(F_ERROR_NAME, "s", m.errorName))
    requires FieldsTyped(SerialField(m.replySerial)) && FieldsTyped(TextField(F_DESTINATION, "s", m.destination))
    requires FieldsTyped(TextField(F_SENDER, "s", m.sender)) && FieldsTyped(SignatureField(m.signature))
    ensures FieldsTyped(Fields(m))
  {
    hide FieldsTyped, TextField, SerialField, SignatureField;
    var f8 := SignatureField(m.signature);
    var f7 := TextField(F_SENDER, "s", m.sender) + f8;
    var f6 := TextField(F_DESTINATION, "s", m.destination) + f7;
    var f5 := SerialField(m.replySerial) + f6;
    var f4 := TextField(F_ERROR_NAME, "s", m.errorName) + f5;
    var f3 := TextField(F_MEMBER, "s", m.member) + f4;
    BothTyped(TextField(F_SENDER, "s", m.sender), f8);
    BothTyped(TextField(F_DESTINATION, "s", m.destination), f7);
    BothTyped(SerialField(m.replySerial), f6);
    BothTyped(TextField(F_ERROR_NAME, "s", m.errorName), f5);
    BothTyped(TextField(F_MEMBER, "s", m.member), f4);
    BothTyped(TextField(F_INTERFACE, "s", m.iface), f3);
    BothTyped(TextField(F_PATH, "o", m.path), TextField(F_INTERFACE, "s", m.iface) + f3);
  }

  lemma BothTyped(a: seq<Value>, b: seq<Value>)
    requires FieldsTyped(a) && FieldsTyped(b)
    ensures FieldsTyped(a + b)
  {
    hide HasType;
  }

  /** The array of fields begins with its length, right where a reader looks for it. */
  lemma FieldArrayShape(m: Message)
    ensures exists fields: seq<byte> :: FieldArray(m) == Little(|fields|, 4) + fields
  {
    hide MarshalItems, Marshal, MarshalArray;
    assert Signature(FieldType) == "a(yv)" by { FieldSignature(); }
    Dispatch("a(yv)", List(Fields(m)), [], 12, true);
    assert "a(yv)"[1..] == "(yv)";
    FieldItems(Fields(m));
  }

  lemma FieldSignature()
    ensures Signature(FieldType) == "a(yv)"
  {
    assert [Basic('y'), Variant][1..] == [Variant] && [Variant][1..] == [];
    assert Signatures([Variant]) == "v";
    assert Signatures([Basic('y'), Variant]) == "yv";
  }

  lemma FieldItems(items: seq<Value>)
    ensures exists fields: seq<byte> :: MarshalArray("(yv)", items, 12, true) == Little(|fields|, 4) + fields
  {
    hide MarshalItems;
    var body := MarshalItems("(yv)", items, ArrayStart(8, 12), true);
    assert Zeros(0) == [];
    assert MarshalArray("(yv)", items, 12, true) == Little(|body|, 4) + body;
  }

  /** The first sixteen bytes of a message say how long it is. */
  lemma EncodedLengths(m: Message, buf: seq<byte>)
    requires m.kind < 256 && m.flags < 256 && m.serial < TWO_32 && |Encode(m)| < TWO_32
    requires |buf| >= 16 && |Encode(m)| >= 16 && buf[..16] == Encode(m)[..16]
    ensures buf[0] == LITTLE && buf[1] == m.kind && buf[2] == m.flags
    ensures GetInt(buf[8..12], true) == m.serial
    ensures HeaderLength(buf) == |Header(m)| && MessageLength(buf) == |Encode(m)|
  {
    hide FieldArray, Body, Little, FromLittle;
    FieldArrayShape(m);
    var fields :| FieldArray(m) == Little(|fields|, 4) + fields;
    var n, e := |Body(m)|, Encode(m);
    var h := FixedHeader(m, n) + FieldArray(m);
    assert e[..16] == [LITTLE, m.kind, m.flags, 1] + Little(n, 4) + Little(m.serial, 4) + Little(|fields|, 4);
    assert buf[0] == buf[..16][0] && buf[1] == buf[..16][1] && buf[2] == buf[..16][2];
    assert buf[4..8] == buf[..16][4..8] == Little(n, 4);
    assert buf[8..12] == buf[..16][8..12] == Little(m.serial, 4);
    assert buf[12..16] == buf[..16][12..16] == Little(|fields|, 4);
    Powers();
    LittleBack(n, 4);
    LittleBack(m.serial, 4);
    LittleBack(|fields|, 4);
  }

  lemma EncodedSize(m: Message)
    ensures |Encode(m)| >= 16 && |FixedHeader(m, |Body(m)|)| == 12
    ensures Encode(m) == FixedHeader(m, |Body(m)|) + FieldArray(m) + Padding(12 + |FieldArray(m)|, 8) + Body(m)
  {
    hide FieldArray, Body;
    FieldArrayShape(m);
  }

  lemma BodyRead(m: Message, types: seq<Type>)
    requires Sendable(m, types)
    ensures m.signature == "" ==> m.body == []
    ensures SplitSignature(m.signature).Some?
    ensures ReadFields(SplitSignature(m.signature).value, Body(m), 0, true) == Some((m.body, |Body(m)|))
  {
    hide MarshalFields, ReadFields, HasType, WellFormed, Signature, FieldArray, SplitSignature;
    SplitJoined(types);
    ListLength(types);
    if types != [] { SignatureSome(types); }
    var b := MarshalFields(SignatureList(types), m.body, 0, true);
    assert b[0..0 + |b|] == b;
    EncodedSize(m);
    FieldsBack(types, m.body, b, 0, true);
  }

  lemma SignatureSome(types: seq<Type>)
    requires types != []
    ensures Signatures(types) != ""
  {
  }

  /**
   A message encoded and decoded, whatever follows it, is the message, and its
   length is what was produced.
   */
  lemma DecodeEncode(m: Message, types: seq<Type>, rest: seq<byte>)
    requires Sendable(m, types)
    ensures Decode(Encode(m) + rest) == Whole(m, |Encode(m)|)
  {
    hide FieldArray, Body, ReadFields, Read, TakeAll, Fields, HeaderLength, MessageLength, SplitSignature,
      FixedHeader, Padding, HasType, WellFormed, Encode, Header, Signature, Marshal, GetInt;
    var e := Encode(m);
    var buf := e + rest;
    EncodedSize(m);
    assert buf[..16] == e[..16];
    EncodedLengths(m, buf);
    HeaderRead(m, types, buf);
    FieldsTaken(m, types);
    assert buf[|Header(m)|..|e|] == Body(m) by { BodyPlace(m, rest); }
    BodyRead(m, types);
  }

  lemma BodyPlace(m: Message, rest: seq<byte>)
    ensures |Header(m)| <= |Encode(m)| && (Encode(m) + rest)[|Header(m)|..|Encode(m)|] == Body(m)
  {
    hide Header, Body;
  }

  lemma HeaderRead(m: Message, types: seq<Type>, buf: seq<byte>)
    requires Sendable(m, types) && |buf| >= |Encode(m)| && buf[..|Encode(m)|] == Encode(m)
    ensures Read(Signature(FieldType), buf, 12, true) == Some((List(Fields(m)), 12 + |FieldArray(m)|))
  {
    hide Marshal, Read, Signature, HasType, WellFormed, Fields, Body, FixedHeader, Padding, Encode;
    EncodedSize(m);
    HeaderTyped(m, types);
    var a := FieldArray(m);
    assert buf[12..12 + |a|] == Encode(m)[12..12 + |a|] == a;
    ReadBack(FieldType, List(Fields(m)), buf, 12, true);
  }

  /** The beginning of a message is not yet a message. */
  lemma DecodePrefix(m: Message, types: seq<Type>, n: nat)
    requires Sendable(m, types) && n < |Encode(m)|
    ensures Decode(Encode(m)[..n]) == Incomplete
  {
    hide Encode, Read, HeaderLength, MessageLength;
    if n >= 16 {
      EncodedSize(m);
      assert Encode(m)[..n][..16] == Encode(m)[..16];
      EncodedLengths(m, Encode(m)[..n]);
    }
  }
}
