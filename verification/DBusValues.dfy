/**
 Values and what they are on the wire: the D-Bus Specification, section
 "Marshaling (Wire Format)", as server/src/dbus.ts reads and writes it.
 Strings are sequences of bytes, and a double is its 64 bits.
 */
module DBusValues {
  import opened Bytes
  import opened DBusSignature

  datatype Entry = Entry(key: Value, value: Value)

  datatype Value =
    | Num(n: int)
    | Bool(b: bool)
    | Double(bits: nat)
    | Text(text: seq<byte>)
    | ByteArray(bytes: seq<byte>)
    | List(items: seq<Value>)
    | Map(entries: seq<Entry>)
    | Var(sig: string, value: Value)

  /* ---- Numbers ---- */

  const P16: nat := 0x1_0000
  const P64: nat := 0x1_0000_0000_0000_0000

  /** `n` in `k` bytes, least significant first. */
  function Little(n: nat, k: nat): (r: seq<byte>)
    ensures |r| == k
  {
    if k == 0 then [] else [n % 256] + Little(n / 256, k - 1)
  }

  function FromLittle(b: seq<byte>): nat {
    if b == [] then 0 else b[0] as int + 256 * FromLittle(b[1..])
  }

  function Reverse(b: seq<byte>): (r: seq<byte>)
    ensures |r| == |b|
  {
    if b == [] then [] else Reverse(b[1..]) + [b[0]]
  }

  function PutInt(n: nat, k: nat, le: bool): (r: seq<byte>)
    ensures |r| == k
  {
    if le then Little(n, k) else Reverse(Little(n, k))
  }

  function GetInt(b: seq<byte>, le: bool): nat {
    FromLittle(if le then b else Reverse(b))
  }

  function Power256(k: nat): nat {
    if k == 0 then 1 else 256 * Power256(k - 1)
  }

  lemma {:induction false} LittleBack(n: nat, k: nat)
    requires n < Power256(k)
    ensures FromLittle(Little(n, k)) == n
  {
    if k > 0 {
      LittleBack(n / 256, k - 1);
      assert Little(n, k)[1..] == Little(n / 256, k - 1);
    }
  }

  lemma {:induction false} ReverseSnoc(b: seq<byte>, x: byte)
    ensures Reverse(b + [x]) == [x] + Reverse(b)
  {
    if b == [] {
      assert [] + [x] == [x];
      assert [x][1..] == [];
    } else {
      assert (b + [x])[1..] == b[1..] + [x];
      ReverseSnoc(b[1..], x);
      assert [x] + (Reverse(b[1..]) + [b[0]]) == ([x] + Reverse(b[1..])) + [b[0]];
    }
  }

  lemma {:induction false} ReverseTwice(b: seq<byte>)
    ensures Reverse(Reverse(b)) == b
  {
    if b != [] {
      ReverseTwice(b[1..]);
      ReverseSnoc(Reverse(b[1..]), b[0]);
    }
  }

  /** A number read back in the order it was written. */
  lemma IntBack(n: nat, k: nat, le: bool)
    requires n < Power256(k)
    ensures GetInt(PutInt(n, k, le), le) == n
  {
    LittleBack(n, k);
    ReverseTwice(Little(n, k));
  }

  lemma Powers()
    ensures Power256(1) == 256 && Power256(2) == P16 && Power256(4) == TWO_32 && Power256(8) == P64
  {
    assert Power256(4) == 256 * (256 * (256 * Power256(1)));
    assert Power256(8) == 256 * (256 * (256 * (256 * Power256(4))));
  }

  /** Two's complement. */
  function Unsigned(n: int, modulus: nat): (u: nat)
    requires modulus > 0
    ensures u < modulus
  {
    n % modulus
  }

  function Signed(u: nat, modulus: nat): int {
    if u < modulus / 2 then u else u - modulus
  }

  /* ---- Which values a type has ---- */

  predicate AsciiText(s: string) {
    |s| <= 255 && forall i :: 0 <= i < |s| ==> s[i] < 128 as char
  }

  function TextOf(s: string): seq<byte>
    requires AsciiText(s)
  {
    seq(|s|, i requires 0 <= i < |s| => s[i] as int)
  }

  function StringOf(b: seq<byte>): string {
    seq(|b|, i requires 0 <= i < |b| => b[i] as char)
  }

  lemma TextBack(s: string)
    requires AsciiText(s)
    ensures StringOf(TextOf(s)) == s
  {
  }

  predicate InRange(code: char, n: int) {
    match code
    case 'y' => 0 <= n < 256
    case 'n' => -0x8000 <= n < 0x8000
    case 'q' => 0 <= n < P16
    case 'i' => -0x8000_0000 <= n < 0x8000_0000
    case 'u' => 0 <= n < TWO_32
    case 'h' => 0 <= n < TWO_32
    case 'x' => -0x8000_0000_0000_0000 <= n < 0x8000_0000_0000_0000
    case 't' => 0 <= n < P64
    case _ => false
  }

  predicate Keyed(entries: seq<Entry>) {
    forall i, j :: 0 <= i < j < |entries| ==> entries[i].key != entries[j].key
  }

  /** `v` is what a caller passes for `t`: maps have each key once, variants carry a signature that fits. */
  ghost predicate HasType(v: Value, t: Type)
    decreases v, t
  {
    match t
    case Basic(c) =>
      (match v
       case Num(n) => InRange(c, n)
       case Bool(_) => c == 'b'
       case Double(bits) => c == 'd' && bits < P64
       case Text(b) => c == 's' || c == 'o' || (c == 'g' && |b| <= 255)
       case _ => false)
    case Variant =>
      v.Var? && AsciiText(v.sig) && exists u :: WellFormed(u) && Signature(u) == v.sig && HasType(v.value, u)
    case Array(e) =>
      if e == Basic('y') then v.ByteArray?
      else v.List? && forall i :: 0 <= i < |v.items| ==> HasType(v.items[i], e)
    case Dict(k, w) =>
      v.Map? && Keyed(v.entries)
      && forall i :: 0 <= i < |v.entries| ==> HasType(v.entries[i].key, k) && HasType(v.entries[i].value, w)
    case Struct(fs) =>
      v.List? && |v.items| == |fs| && forall i :: 0 <= i < |fs| ==> HasType(v.items[i], fs[i])
  }

  /* ---- Writing ---- */

  predicate Boundary(n: nat) {
    n == 1 || n == 2 || n == 4 || n == 8
  }

  /** The first multiple of `n` from `pos` on. */
  function Aligned(pos: nat, n: nat): (p: nat)
    requires Boundary(n)
    ensures pos <= p < pos + n
  {
    if n == 1 then pos
    else if n == 2 then (pos + 1) / 2 * 2
    else if n == 4 then (pos + 3) / 4 * 4
    else (pos + 7) / 8 * 8
  }

  function Zeros(n: nat): (z: seq<byte>)
    ensures |z| == n
  {
    seq(n, i => 0)
  }

  function Padding(pos: nat, n: nat): seq<byte>
    requires Boundary(n)
  {
    Zeros(Aligned(pos, n) - pos)
  }

  /** A number of `k` bytes on a boundary of `k`. */
  function Fixed(n: nat, k: nat, pos: nat, le: bool): seq<byte>
    requires Boundary(k)
  {
    Padding(pos, k) + PutInt(n, k, le)
  }

  /** One more than the largest unsigned number of a code. */
  function Modulus(code: char): (m: nat)
    ensures m > 0
  {
    if code == 'n' || code == 'q' then P16
    else if code == 'x' || code == 't' || code == 'd' then P64
    else TWO_32
  }

  /** The codes of signed numbers. */
  predicate IsSigned(code: char) {
    code == 'n' || code == 'i' || code == 'x'
  }

  /** The bytes of a number, boolean or double of a given code. */
  function Scalar(code: char, v: Value, pos: nat, le: bool): seq<byte> {
    match v
    case Num(n) =>
      if code == 'y' then [n % 256] else Fixed(Unsigned(n, Modulus(code)), Align(code), pos, le)
    case Bool(b) => Fixed(if b then 1 else 0, 4, pos, le)
    case Double(bits) => Fixed(bits, 8, pos, le)
    case _ => []
  }

  function TextBytes(code: char, text: seq<byte>, pos: nat, le: bool): seq<byte> {
    if code == 'g' then [|text| % 256] + text + [0]
    else Fixed(|text|, 4, pos, le) + text + [0]
  }

  /** A length, the padding of the element, the elements; the length is of the elements alone. */
  function ArrayBytes(length: nat, align: nat, body: seq<byte>, pos: nat, le: bool): seq<byte>
    requires Boundary(align)
  {
    Fixed(length, 4, pos, le) + Padding(Aligned(pos, 4) + 4, align) + body
  }

  /** Where an array's elements begin. */
  function ArrayStart(align: nat, pos: nat): nat
    requires Boundary(align)
  {
    Aligned(Aligned(pos, 4) + 4, align)
  }

  /**
   The bytes of `v` at `pos`, driven by the signature as the Writer is. Meant
   for values of the type the signature is for; for others, some bytes.
   */
  function Marshal(sig: string, v: Value, pos: nat, le: bool): seq<byte>
    decreases v, 1
  {
    if sig == "" then []
    else
      match v
      case Text(text) => TextBytes(sig[0], text, pos, le)
      case Var(s, w) => MarshalVariant(s, w, pos, le)
      case ByteArray(b) => ArrayBytes(|b|, 1, b, pos, le)
      case Map(entries) =>
        if |sig| < 3 then [] else MarshalMap(sig[2..|sig| - 1], entries, pos, le)
      case List(items) =>
        if sig[0] == 'a' then MarshalArray(sig[1..], items, pos, le)
        else if |sig| < 2 then []
        else MarshalStruct(sig[1..|sig| - 1], items, pos, le)
      case _ => Scalar(sig[0], v, pos, le)
  }

  function MarshalVariant(sig: string, v: Value, pos: nat, le: bool): seq<byte>
    decreases v, 2
  {
    if !AsciiText(sig) then []
    else
      var head := TextBytes('g', TextOf(sig), pos, le);
      head + Marshal(sig, v, pos + |head|, le)
  }

  function MarshalArray(elem: string, items: seq<Value>, pos: nat, le: bool): seq<byte>
    decreases items, 1
  {
    if elem == "" then []
    else
      var body := MarshalItems(elem, items, ArrayStart(Align(elem[0]), pos), le);
      ArrayBytes(|body|, Align(elem[0]), body, pos, le)
  }

  /** `inner` is what stands between the braces. */
  function MarshalMap(inner: string, entries: seq<Entry>, pos: nat, le: bool): seq<byte>
    decreases entries, 1
  {
    var types := SplitSignature(inner);
    if types.None? || |types.value| != 2 then []
    else
      var body := MarshalEntries(types.value[0], types.value[1], entries, ArrayStart(8, pos), le);
      ArrayBytes(|body|, 8, body, pos, le)
  }

  /** `inner` is what stands between the parentheses. */
  function MarshalStruct(inner: string, items: seq<Value>, pos: nat, le: bool): seq<byte>
    decreases items, 1
  {
    var types := SplitSignature(inner);
    if types.None? || |types.value| != |items| then []
    else Padding(pos, 8) + MarshalFields(types.value, items, Aligned(pos, 8), le)
  }

  function MarshalItems(sig: string, items: seq<Value>, pos: nat, le: bool): seq<byte>
    decreases items, 0
  {
    if items == [] then []
    else
      var first := Marshal(sig, items[0], pos, le);
      first + MarshalItems(sig, items[1..], pos + |first|, le)
  }

  function MarshalFields(sigs: seq<string>, items: seq<Value>, pos: nat, le: bool): seq<byte>
    requires |sigs| == |items|
    decreases items, 0
  {
    if items == [] then []
    else
      var first := Marshal(sigs[0], items[0], pos, le);
      first + MarshalFields(sigs[1..], items[1..], pos + |first|, le)
  }

  function MarshalEntries(k: string, w: string, entries: seq<Entry>, pos: nat, le: bool): seq<byte>
    decreases entries, 0
  {
    if entries == [] then []
    else
      var first := MarshalEntry(k, w, entries[0], pos, le);
      first + MarshalEntries(k, w, entries[1..], pos + |first|, le)
  }

  function MarshalEntry(k: string, w: string, e: Entry, pos: nat, le: bool): seq<byte>
    decreases e, 0
  {
    var at := Aligned(pos, 8);
    var key := Marshal(k, e.key, at, le);
    Padding(pos, 8) + key + Marshal(w, e.value, at + |key|, le)
  }

  /* ---- Reading ---- */

  /** A value and where the next begins; None where the source throws, or reads past the end. */
  type Result = Option<(Value, nat)>

  /** Bytes of the buffer not yet passed. */
  function Left(buf: seq<byte>, pos: nat): nat {
    if pos <= |buf| then |buf| - pos else 0
  }

  function ReadInt(buf: seq<byte>, k: nat, pos: nat, le: bool): (r: Option<(nat, nat)>)
    requires Boundary(k)
    ensures r.Some? ==> pos < r.value.1 <= |buf| && r.value.1 == Aligned(pos, k) + k
  {
    var at := Aligned(pos, k);
    if at + k > |buf| then None else Some((GetInt(buf[at..at + k], le), at + k))
  }

  function ReadScalar(code: char, buf: seq<byte>, pos: nat, le: bool): (r: Result)
    ensures r.Some? ==> pos < r.value.1 <= |buf|
  {
    if code == 'y' then
      if pos >= |buf| then None else Some((Num(buf[pos]), pos + 1))
    else
      var r := ReadInt(buf, Align(code), pos, le);
      if r.None? then None
      else
        var (u, next) := r.value;
        if code == 'b' then Some((Bool(u != 0), next))
        else if code == 'd' then Some((Double(u), next))
        else Some((Num(if IsSigned(code) then Signed(u, Modulus(code)) else u), next))
  }

  function ReadText(code: char, buf: seq<byte>, pos: nat, le: bool): (r: Option<(seq<byte>, nat)>)
    ensures r.Some? ==> pos < r.value.1 <= |buf|
  {
    if code == 'g' then
      if pos >= |buf| || pos + 1 + buf[pos] + 1 > |buf| then None
      else Some((buf[pos + 1..pos + 1 + buf[pos]], pos + 1 + buf[pos] + 1))
    else
      var r := ReadInt(buf, 4, pos, le);
      if r.None? || r.value.1 + r.value.0 + 1 > |buf| then None
      else Some((buf[r.value.1..r.value.1 + r.value.0], r.value.1 + r.value.0 + 1))
  }

  /** A map with `key` set: in its place if it was there, else at the end. */
  function Set(entries: seq<Entry>, key: Value, value: Value): seq<Entry> {
    if entries == [] then [Entry(key, value)]
    else if entries[0].key == key then [Entry(key, value)] + entries[1..]
    else [entries[0]] + Set(entries[1..], key, value)
  }

  function TotalLength(sigs: seq<string>): nat {
    if sigs == [] then 0 else |sigs[0]| + TotalLength(sigs[1..])
  }

  lemma {:induction false} SplitLength(s: string)
    requires SplitSignature(s).Some?
    ensures TotalLength(SplitSignature(s).value) == |s|
  {
    if s != "" {
      var n := CompleteLength(s).value;
      SplitLength(s[n..]);
      assert SplitSignature(s).value[1..] == SplitSignature(s[n..]).value;
    }
  }

  function Read(sig: string, buf: seq<byte>, pos: nat, le: bool): (r: Result)
    ensures r.Some? ==> pos <= r.value.1 <= |buf|
    decreases Left(buf, pos), |sig|, 1
  {
    if sig == "" then None
    else if sig[0] == 'v' then ReadVariant(buf, pos, le)
    else if sig[0] == 'a' then ReadArray(sig[1..], buf, pos, le)
    else if sig[0] == '(' then if |sig| < 2 then None else ReadStruct(sig[1..|sig| - 1], buf, pos, le)
    else if sig[0] == 's' || sig[0] == 'o' || sig[0] == 'g' then TextValue(ReadText(sig[0], buf, pos, le))
    else if sig[0] in BASIC_CODES then ReadScalar(sig[0], buf, pos, le)
    else None
  }

  function ReadVariant(buf: seq<byte>, pos: nat, le: bool): (r: Result)
    ensures r.Some? ==> pos <= r.value.1 <= |buf|
    decreases Left(buf, pos), 0, 0
  {
    var s := ReadText('g', buf, pos, le);
    if s.None? then None
    else
      var sig := StringOf(s.value.0);
      var r := Read(sig, buf, s.value.1, le);
      if r.None? then None else Some((Var(sig, r.value.0), r.value.1))
  }

  function ReadArray(elem: string, buf: seq<byte>, pos: nat, le: bool): (r: Result)
    ensures r.Some? ==> pos <= r.value.1 <= |buf|
    decreases Left(buf, pos), |elem|, 3
  {
    var len := ReadInt(buf, 4, pos, le);
    if elem == "" || len.None? then None
    else
      var start := Aligned(len.value.1, Align(elem[0]));
      var end := start + len.value.0;
      if start > |buf| then None
      else if elem == "y" then
        if end > |buf| then None else Some((ByteArray(buf[start..end]), end))
      else if elem[0] == '{' then
        if |elem| < 2 then None else ReadMap(elem[1..|elem| - 1], buf, start, end, le)
      else
        var r := ReadItems(elem, buf, start, end, le);
        if r.None? then None else Some((List(r.value.0), r.value.1))
  }

  function ReadMap(inner: string, buf: seq<byte>, start: nat, end: nat, le: bool): (r: Result)
    requires start <= |buf|
    ensures r.Some? ==> start <= r.value.1 <= |buf|
    decreases Left(buf, start), |inner|, 3
  {
    var types := SplitSignature(inner);
    if types.None? || |types.value| != 2 then None
    else
      SplitLength(inner);
      assert |inner| == |types.value[0]| + TotalLength(types.value[1..]);
      assert TotalLength(types.value[1..]) == |types.value[1]| + TotalLength(types.value[1..][1..]);
      var r := ReadEntries(types.value[0], types.value[1], [], buf, start, end, le);
      if r.None? then None else Some((Map(r.value.0), r.value.1))
  }

  function ReadStruct(inner: string, buf: seq<byte>, pos: nat, le: bool): (r: Result)
    ensures r.Some? ==> pos <= r.value.1 <= |buf|
    decreases Left(buf, pos), |inner|, 3
  {
    var types := SplitSignature(inner);
    if types.None? || Aligned(pos, 8) > |buf| then None
    else
      SplitLength(inner);
      var r := ReadFields(types.value, buf, Aligned(pos, 8), le);
      if r.None? then None else Some((List(r.value.0), r.value.1))
  }

  function TextValue(r: Option<(seq<byte>, nat)>): Result {
    if r.None? then None else Some((Text(r.value.0), r.value.1))
  }

  /** Elements until `end`; one that takes no bytes would go on for ever, and is None here. */
  function ReadItems(sig: string, buf: seq<byte>, pos: nat, end: nat, le: bool): (r: Option<(seq<Value>, nat)>)
    requires pos <= |buf|
    ensures r.Some? ==> pos <= r.value.1 <= |buf|
    decreases Left(buf, pos), |sig|, 2
  {
    if pos >= end then Some(([], pos))
    else
      var first := Read(sig, buf, pos, le);
      if first.None? || first.value.1 <= pos then None
      else
        var rest := ReadItems(sig, buf, first.value.1, end, le);
        if rest.None? then None else Some(([first.value.0] + rest.value.0, rest.value.1))
  }

  function ReadFields(sigs: seq<string>, buf: seq<byte>, pos: nat, le: bool): (r: Option<(seq<Value>, nat)>)
    requires pos <= |buf|
    ensures r.Some? ==> pos <= r.value.1 <= |buf|
    decreases Left(buf, pos), TotalLength(sigs), 2, |sigs|
  {
    if sigs == [] then Some(([], pos))
    else
      var first := Read(sigs[0], buf, pos, le);
      if first.None? then None
      else
        var rest := ReadFields(sigs[1..], buf, first.value.1, le);
        if rest.None? then None else Some(([first.value.0] + rest.value.0, rest.value.1))
  }

  function ReadEntries(k: string, w: string, held: seq<Entry>, buf: seq<byte>, pos: nat, end: nat, le: bool)
    : (r: Option<(seq<Entry>, nat)>)
    requires pos <= |buf|
    ensures r.Some? ==> pos <= r.value.1 <= |buf|
    decreases Left(buf, pos), |k| + |w|, 2
  {
    if pos >= end then Some((held, pos))
    else
      var key := Read(k, buf, Aligned(pos, 8), le);
      if key.None? then None
      else
        var value := Read(w, buf, key.value.1, le);
        if value.None? || value.value.1 <= pos then None
        else ReadEntries(k, w, Set(held, key.value.0, value.value.0), buf, value.value.1, end, le)
  }
}
