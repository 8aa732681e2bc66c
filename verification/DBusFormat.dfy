/**
 The wire format as the D-Bus Specification has it, section "Marshaling (Wire
 Format)": what the bytes of a value are, said of the bytes and of its type.
 What the Writer puts out for a value is exactly what the format says.
 */
module DBusFormat {
  import opened Bytes
  import opened DBusSignature
  import opened DBusValues
  import opened DBusRoundTrip

  /** The number some bytes stand for: the first counts least, or most. */
  function Place(b: seq<byte>, le: bool): nat {
    if b == [] then 0
    else if le then b[0] as int + 256 * Place(b[1..], le)
    else 256 * Place(b[..|b| - 1], le) + b[|b| - 1] as int
  }

  predicate AllZero(b: seq<byte>) {
    forall i :: 0 <= i < |b| ==> b[i] == 0
  }

  /** How far it is to the next multiple of `n`. */
  function Gap(pos: nat, n: nat): nat
    requires n > 0
  {
    (n - pos % n) % n
  }

  /** A number of `k` bytes, on a multiple of `k`, behind zeros. */
  predicate Word(b: seq<byte>, n: nat, k: nat, pos: nat, le: bool)
    requires k > 0
  {
    var p := Gap(pos, k);
    |b| == p + k && AllZero(b[..p]) && Place(b[p..], le) == n
  }

  /** A string or object path: its length in four bytes, its bytes, a zero. */
  predicate Chars(b: seq<byte>, text: seq<byte>, pos: nat, le: bool) {
    var h := Gap(pos, 4) + 4;
    && |b| == h + |text| + 1
    && Word(b[..h], |text|, 4, pos, le) && b[h..h + |text|] == text && b[h + |text|] == 0
  }

  /** A signature: its length in one byte, its bytes, a zero. */
  predicate ShortChars(b: seq<byte>, text: seq<byte>) {
    && |b| == |text| + 2
    && b[0] == |text| && b[1..1 + |text|] == text && b[1 + |text|] == 0
  }

  /** Where the elements of an array begin, counted from the array. */
  function Start(align: nat, pos: nat): nat
    requires align > 0
  {
    var h := Gap(pos, 4) + 4;
    h + Gap(pos + h, align)
  }

  /** The length of an array, in four bytes, and zeros up to its first element, which it does not count. */
  predicate Counted(b: seq<byte>, align: nat, pos: nat, le: bool)
    requires align > 0
  {
    var h, s := Gap(pos, 4) + 4, Start(align, pos);
    s <= |b| && Word(b[..h], |b| - s, 4, pos, le) && AllZero(b[h..s])
  }

  /** The specification's table of alignments. */
  function AlignmentOf(t: Type): (n: nat)
    ensures n > 0
  {
    match t
    case Basic(c) =>
      if c == 'n' || c == 'q' then 2
      else if c == 'b' || c == 'i' || c == 'u' || c == 'h' || c == 's' || c == 'o' then 4
      else if c == 'x' || c == 't' || c == 'd' then 8
      else 1
    case Variant => 1
    case Array(_) => 4
    case Dict(_, _) => 4
    case Struct(_) => 8
  }

  /** Numbers in two's complement, a boolean as 1 or 0 in four bytes, a double as its eight. */
  predicate WireBasic(c: char, v: Value, pos: nat, le: bool, b: seq<byte>) {
    match v
    case Num(n) =>
      if c == 'y' then b == [n % 256]
      else if c == 'n' || c == 'q' then Word(b, n % 0x1_0000, 2, pos, le)
      else if c == 'x' || c == 't' then Word(b, n % 0x1_0000_0000_0000_0000, 8, pos, le)
      else Word(b, n % 0x1_0000_0000, 4, pos, le)
    case Bool(true) => Word(b, 1, 4, pos, le)
    case Bool(false) => Word(b, 0, 4, pos, le)
    case Double(bits) => Word(b, bits, 8, pos, le)
    case Text(text) => if c == 'g' then ShortChars(b, text) else Chars(b, text, pos, le)
    case _ => false
  }

  /** `b` is `v`, a value of type `t`, at `pos`. */
  ghost predicate Wire(t: Type, v: Value, pos: nat, le: bool, b: seq<byte>)
    decreases v, 2
  {
    match t
    case Basic(c) => WireBasic(c, v, pos, le, b)
    case Variant => v.Var? && WireVariant(v.sig, v.value, pos, le, b)
    case Array(e) =>
      if e == Basic('y') then v.ByteArray? && WireBytes(v.bytes, pos, le, b)
      else v.List? && WireArray(e, v.items, pos, le, b)
    case Dict(k, w) => v.Map? && WireMap(k, w, v.entries, pos, le, b)
    case Struct(fs) => v.List? && |v.items| == |fs| && WireStruct(fs, v.items, pos, le, b)
  }

  /** The signature of a type, then a value of it. */
  ghost predicate WireVariant(sig: string, v: Value, pos: nat, le: bool, b: seq<byte>)
    decreases v, 3
  {
    var n := |sig| + 2;
    && AsciiText(sig) && n <= |b| && ShortChars(b[..n], TextOf(sig))
    && exists u :: WellFormed(u) && Signature(u) == sig && HasType(v, u) && Wire(u, v, pos + n, le, b[n..])
  }

  predicate WireBytes(bytes: seq<byte>, pos: nat, le: bool, b: seq<byte>) {
    Counted(b, 1, pos, le) && b[Start(1, pos)..] == bytes
  }

  ghost predicate WireArray(e: Type, items: seq<Value>, pos: nat, le: bool, b: seq<byte>)
    decreases items, 1
  {
    var s := Start(AlignmentOf(e), pos);
    Counted(b, AlignmentOf(e), pos, le) && WireItems(e, items, pos + s, le, b[s..])
  }

  ghost predicate WireMap(k: Type, w: Type, entries: seq<Entry>, pos: nat, le: bool, b: seq<byte>)
    decreases entries, 1
  {
    var s := Start(8, pos);
    Counted(b, 8, pos, le) && WireEntries(k, w, entries, pos + s, le, b[s..])
  }

  ghost predicate WireStruct(fs: seq<Type>, items: seq<Value>, pos: nat, le: bool, b: seq<byte>)
    requires |fs| == |items|
    decreases items, 1
  {
    var p := Gap(pos, 8);
    p <= |b| && AllZero(b[..p]) && WireFields(fs, items, pos + p, le, b[p..])
  }

  /** One after another; each is aligned by where it stands in the message. */
  ghost predicate WireItems(e: Type, items: seq<Value>, pos: nat, le: bool, b: seq<byte>)
    decreases items, 0
  {
    if items == [] then b == []
    else exists n :: 0 <= n <= |b| && Wire(e, items[0], pos, le, b[..n])
                     && WireItems(e, items[1..], pos + n, le, b[n..])
  }

  ghost predicate WireFields(fs: seq<Type>, items: seq<Value>, pos: nat, le: bool, b: seq<byte>)
    requires |fs| == |items|
    decreases items, 0
  {
    if items == [] then b == []
    else exists n :: 0 <= n <= |b| && Wire(fs[0], items[0], pos, le, b[..n])
                     && WireFields(fs[1..], items[1..], pos + n, le, b[n..])
  }

  /** Entries are structs: each begins on a multiple of eight. */
  ghost predicate WireEntry(k: Type, w: Type, e: Entry, pos: nat, le: bool, b: seq<byte>)
    decreases e, 1
  {
    var p := Gap(pos, 8);
    p <= |b| && AllZero(b[..p]) && WirePair(k, w, e, pos + p, le, b[p..])
  }

  ghost predicate WirePair(k: Type, w: Type, e: Entry, pos: nat, le: bool, b: seq<byte>)
    decreases e, 0
  {
    exists n :: 0 <= n <= |b| && Wire(k, e.key, pos, le, b[..n]) && Wire(w, e.value, pos + n, le, b[n..])
  }

  ghost predicate WireEntries(k: Type, w: Type, entries: seq<Entry>, pos: nat, le: bool, b: seq<byte>)
    decreases entries, 0
  {
    if entries == [] then b == []
    else exists n :: 0 <= n <= |b| && WireEntry(k, w, entries[0], pos, le, b[..n])
                     && WireEntries(k, w, entries[1..], pos + n, le, b[n..])
  }

  /* ---- Numbers ---- */

  lemma {:induction false} PlaceLittle(n: nat, k: nat, b: seq<byte>)
    requires n < Power256(k) && |b| == k
    ensures Place(b, true) == n <==> b == Little(n, k)
    ensures Place(b, true) < Power256(k)
  {
    if k > 0 {
      PlaceLittle(n / 256, k - 1, b[1..]);
      assert b == [b[0]] + b[1..];
      assert Little(n, k)[1..] == Little(n / 256, k - 1);
    }
  }

  lemma {:induction false} PlaceBig(n: nat, k: nat, b: seq<byte>)
    requires n < Power256(k) && |b| == k
    ensures Place(b, false) == n <==> b == Reverse(Little(n, k))
    ensures Place(b, false) < Power256(k)
  {
    if k > 0 {
      PlaceBig(n / 256, k - 1, b[..k - 1]);
      var r := Reverse(Little(n / 256, k - 1));
      assert Reverse(Little(n, k)) == r + [n % 256] by {
        assert Little(n, k)[1..] == Little(n / 256, k - 1);
      }
      hide Little, Reverse;
      Cut(b, r, [n % 256]);
      LastPlace(b);
    }
  }

  lemma LastPlace(b: seq<byte>)
    requires b != []
    ensures b[|b| - 1..] == [b[|b| - 1]]
  {
  }

  lemma PlaceIs(n: nat, k: nat, le: bool, b: seq<byte>)
    requires n < Power256(k) && |b| == k
    ensures Place(b, le) == n <==> b == PutInt(n, k, le)
    ensures Place(b, le) < Power256(k)
  {
    if le { PlaceLittle(n, k, b); } else { PlaceBig(n, k, b); }
  }

  lemma GapIs(pos: nat, n: nat)
    requires Boundary(n)
    ensures Gap(pos, n) == Aligned(pos, n) - pos
  {
    if n == 2 { GapOf2(pos); }
    if n == 4 { GapOf4(pos); }
    if n == 8 { GapOf8(pos); }
  }

  lemma GapOf2(pos: nat)
    ensures (pos + 1) / 2 * 2 - pos == (2 - pos % 2) % 2
  {
  }

  lemma GapOf4(pos: nat)
    ensures (pos + 3) / 4 * 4 - pos == (4 - pos % 4) % 4
  {
  }

  lemma GapOf8(pos: nat)
    ensures (pos + 7) / 8 * 8 - pos == (8 - pos % 8) % 8
  {
  }

  lemma ZerosAre(b: seq<byte>, n: nat)
    requires |b| == n
    ensures AllZero(b) <==> b == Zeros(n)
  {
  }

  /** What is cut at `n` is what it is put together from. */
  lemma Cut(b: seq<byte>, x: seq<byte>, y: seq<byte>)
    ensures b == x + y <==> |x| <= |b| && b[..|x|] == x && b[|x|..] == y
  {
    if |x| <= |b| && b[..|x|] == x && b[|x|..] == y { assert b == b[..|x|] + b[|x|..]; }
  }

  lemma WordIs(b: seq<byte>, n: nat, k: nat, pos: nat, le: bool)
    requires Boundary(k) && n < Power256(k)
    ensures Word(b, n, k, pos, le) <==> b == Fixed(n, k, pos, le)
    ensures |Fixed(n, k, pos, le)| == Gap(pos, k) + k
  {
    hide PutInt, Power256, Place;
    GapIs(pos, k);
    var p := Gap(pos, k);
    Cut(b, Padding(pos, k), PutInt(n, k, le));
    if |b| == p + k {
      ZerosAre(b[..p], p);
      PlaceIs(n, k, le, b[p..]);
    }
  }

  lemma CharsAre(b: seq<byte>, text: seq<byte>, pos: nat, le: bool)
    requires |text| < TWO_32
    ensures Chars(b, text, pos, le) <==> b == Fixed(|text|, 4, pos, le) + text + [0]
  {
    hide Fixed, Power256, Word;
    Powers();
    var h, head := Gap(pos, 4) + 4, Fixed(|text|, 4, pos, le);
    WordIs(if h <= |b| then b[..h] else [], |text|, 4, pos, le);
    Regroup(head, text, [0]);
    Cut(b, head, text + [0]);
    if h <= |b| { Cut(b[h..], text, [0]); }
  }

  lemma CharsLonger(b: seq<byte>, text: seq<byte>, pos: nat, le: bool)
    requires |b| <= |text|
    ensures !Chars(b, text, pos, le) && b != Fixed(|text|, 4, pos, le) + text + [0]
  {
  }

  lemma ShortCharsAre(b: seq<byte>, text: seq<byte>)
    requires |text| <= 255
    ensures ShortChars(b, text) <==> b == [|text| % 256] + text + [0]
  {
    var head: seq<byte> := [|text| % 256];
    Regroup(head, text, [0]);
    Cut(b, head, text + [0]);
    if 1 <= |b| { Cut(b[1..], text, [0]); }
  }

  /* ---- The format is what the Writer writes ---- */

  lemma StartIs(align: nat, pos: nat)
    requires Boundary(align)
    ensures pos + Start(align, pos) == ArrayStart(align, pos)
    ensures Start(align, pos) - (Gap(pos, 4) + 4) == |Padding(Aligned(pos, 4) + 4, align)|
  {
    GapIs(pos, 4);
    GapIs(Aligned(pos, 4) + 4, align);
  }

  lemma CountedIs(b: seq<byte>, align: nat, pos: nat, le: bool, body: seq<byte>)
    requires Boundary(align) && |b| < TWO_32
    ensures var s := Start(align, pos);
      s <= |b| && Counted(b, align, pos, le) && b[s..] == body <==> b == ArrayBytes(|body|, align, body, pos, le)
    ensures Counted(b, align, pos, le) ==> Start(align, pos) <= |b|
  {
    ArrayLonger(align, body, pos, le);
    if |body| < TWO_32 { ShortCounted(b, align, pos, le, body); }
  }

  lemma ShortCounted(b: seq<byte>, align: nat, pos: nat, le: bool, body: seq<byte>)
    requires Boundary(align) && |body| < TWO_32
    ensures var s := Start(align, pos);
      s <= |b| && Counted(b, align, pos, le) && b[s..] == body <==> b == ArrayBytes(|body|, align, body, pos, le)
  {
    hide Fixed, Power256, Word, Aligned, Gap, Start, Padding, Zeros, AllZero;
    var h, s := Gap(pos, 4) + 4, Start(align, pos);
    var head, pad := Fixed(|body|, 4, pos, le), Padding(Aligned(pos, 4) + 4, align);
    Powers();
    StartIs(align, pos);
    WordIs([], |body|, 4, pos, le);
    ThreeParts(b, head, pad, body);
    if s <= |b| {
      WordIs(b[..h], |body|, 4, pos, le);
      PaddingIs(b[h..s], align, pos);
    }
  }

  lemma PaddingIs(b: seq<byte>, align: nat, pos: nat)
    requires Boundary(align) && |b| == |Padding(Aligned(pos, 4) + 4, align)|
    ensures AllZero(b) <==> b == Padding(Aligned(pos, 4) + 4, align)
  {
    ZerosAre(b, |b|);
  }

  lemma ThreeParts(b: seq<byte>, x: seq<byte>, y: seq<byte>, z: seq<byte>)
    ensures b == x + y + z <==>
      |x| + |y| <= |b| && b[..|x|] == x && b[|x|..|x| + |y|] == y && b[|x| + |y|..] == z
  {
    var n := |x| + |y|;
    if n <= |b| && b[..|x|] == x && b[|x|..n] == y && b[n..] == z {
      assert b == b[..|x|] + b[|x|..n] + b[n..];
    }
  }

  lemma AlignmentIs(t: Type)
    requires WellFormed(t)
    ensures Align(Signature(t)[0]) == AlignmentOf(t)
    ensures Boundary(AlignmentOf(t))
  {
  }

  lemma BasicIs(c: char, v: Value, pos: nat, le: bool, b: seq<byte>)
    requires c in BASIC_CODES && HasType(v, Basic(c)) && |b| < TWO_32
    ensures WireBasic(c, v, pos, le, b) <==> b == Marshal([c], v, pos, le)
  {
    hide Fixed, Power256, Word, Marshal, Chars, ShortChars;
    BasicDispatch(c, v, [], pos, le);
    Powers();
    match v {
      case Num(n) => NumIs(c, n, pos, le, b);
      case Bool(x) => WordIs(b, if x then 1 else 0, 4, pos, le);
      case Double(bits) => WordIs(b, bits, 8, pos, le);
      case Text(text) =>
        if c == 'g' {
          ShortCharsAre(b, text);
        } else if |text| < TWO_32 {
          CharsAre(b, text, pos, le);
        } else {
          CharsLonger(b, text, pos, le);
        }
    }
  }

  lemma NumIs(c: char, n: int, pos: nat, le: bool, b: seq<byte>)
    requires c in BASIC_CODES && InRange(c, n)
    ensures WireBasic(c, Num(n), pos, le, b) <==> b == Scalar(c, Num(n), pos, le)
  {
    hide Fixed, Power256, Word;
    Powers();
    if c != 'y' { WordIs(b, Unsigned(n, Modulus(c)), Align(c), pos, le); }
  }

  /**
   Of a value of a type, at any position and in either byte order: the format is
   met by what is written, and by nothing else.
   */
  lemma {:induction false} WireIs(t: Type, v: Value, pos: nat, le: bool, b: seq<byte>)
    requires WellFormed(t) && HasType(v, t) && |b| < TWO_32
    ensures Wire(t, v, pos, le, b) <==> b == Marshal(Signature(t), v, pos, le)
    decreases v, 3
  {
    hide Marshal, MarshalVariant, MarshalArray, MarshalMap, MarshalStruct;
    hide WireBasic, WireVariant, WireBytes, WireArray, WireMap, WireStruct, ArrayBytes;
    match t {
      case Basic(c) => BasicIs(c, v, pos, le, b);
      case Variant =>
        Dispatch(['v'], v, [], pos, le);
        VariantIs(v, pos, le, b);
      case Array(e) =>
        Dispatch(Signature(t), v, [], pos, le);
        ArrayInner(e);
        if e == Basic('y') { BytesAre(v.bytes, pos, le, b); } else { ArrayIs(e, v.items, pos, le, b); }
      case Dict(k, w) =>
        Dispatch(Signature(t), v, [], pos, le);
        DictInner(k, w);
        MapIs(k, w, v.entries, pos, le, b);
      case Struct(fs) =>
        Dispatch(Signature(t), v, [], pos, le);
        StructInner(fs);
        StructIs(fs, v.items, pos, le, b);
    }
  }

  lemma {:induction false} VariantIs(v: Value, pos: nat, le: bool, b: seq<byte>)
    requires HasType(v, Variant) && |b| < TWO_32
    ensures WireVariant(v.sig, v.value, pos, le, b) <==> b == MarshalVariant(v.sig, v.value, pos, le)
    decreases v, 1
  {
    hide Marshal, Wire, WellFormed, Signature, HasType, ShortChars;
    SomeType(v);
    var text, n := TextOf(v.sig), |v.sig| + 2;
    var head := TextBytes('g', text, pos, le);
    Cut(b, head, Marshal(v.sig, v.value, pos + |head|, le));
    if n <= |b| {
      ShortCharsAre(b[..n], text);
      forall u | WellFormed(u) && Signature(u) == v.sig && HasType(v.value, u)
        ensures Wire(u, v.value, pos + n, le, b[n..]) <==> b[n..] == Marshal(v.sig, v.value, pos + n, le)
      {
        WireIs(u, v.value, pos + n, le, b[n..]);
      }
    }
  }

  lemma SomeType(v: Value)
    requires HasType(v, Variant)
    ensures v.Var? && AsciiText(v.sig) && exists u :: WellFormed(u) && Signature(u) == v.sig && HasType(v.value, u)
  {
  }

  lemma BytesAre(bytes: seq<byte>, pos: nat, le: bool, b: seq<byte>)
    requires |b| < TWO_32
    ensures WireBytes(bytes, pos, le, b) <==> b == ArrayBytes(|bytes|, 1, bytes, pos, le)
  {
    hide Counted, Start, ArrayBytes;
    CountedIs(b, 1, pos, le, bytes);
  }

  lemma {:induction false} ArrayIs(e: Type, items: seq<Value>, pos: nat, le: bool, b: seq<byte>)
    requires WellFormed(e) && |b| < TWO_32
    requires forall i :: 0 <= i < |items| ==> HasType(items[i], e)
    ensures WireArray(e, items, pos, le, b) <==> b == MarshalArray(Signature(e), items, pos, le)
    decreases items, 2
  {
    hide Signature, WellFormed, HasType, Counted, ArrayBytes, MarshalItems, WireItems, Start, ArrayStart, AlignmentOf;
    AlignmentIs(e);
    var align := AlignmentOf(e);
    var s := Start(align, pos);
    StartIs(align, pos);
    CountedIs(b, align, pos, le, MarshalItems(Signature(e), items, pos + s, le));
    if s <= |b| { ItemsAre(e, items, pos + s, le, b[s..]); }
  }

  lemma ArrayLonger(align: nat, body: seq<byte>, pos: nat, le: bool)
    requires Boundary(align)
    ensures |body| <= |ArrayBytes(|body|, align, body, pos, le)|
  {
  }

  lemma ItemsAre(e: Type, items: seq<Value>, pos: nat, le: bool, b: seq<byte>)
    requires WellFormed(e) && |b| < TWO_32
    requires forall i :: 0 <= i < |items| ==> HasType(items[i], e)
    ensures WireItems(e, items, pos, le, b) <==> b == MarshalItems(Signature(e), items, pos, le)
    decreases items, 1
  {
    hide MarshalItems, WireItems, Signature;
    if WireItems(e, items, pos, le, b) { ItemsWritten(e, items, pos, le, b); }
    if b == MarshalItems(Signature(e), items, pos, le) { ItemsMeet(e, items, pos, le, b); }
  }

  lemma {:induction false} ItemsWritten(e: Type, items: seq<Value>, pos: nat, le: bool, b: seq<byte>)
    requires WellFormed(e) && |b| < TWO_32 && WireItems(e, items, pos, le, b)
    requires forall i :: 0 <= i < |items| ==> HasType(items[i], e)
    ensures b == MarshalItems(Signature(e), items, pos, le)
    decreases items, 0
  {
    hide Marshal, Wire, Signature, WellFormed, HasType;
    if items != [] {
      var n := ItemsTaken(e, items, pos, le, b);
      WireIs(e, items[0], pos, le, b[..n]);
      ItemsWritten(e, items[1..], pos + n, le, b[n..]);
      assert b == b[..n] + b[n..];
    }
  }

  lemma {:induction false} ItemsMeet(e: Type, items: seq<Value>, pos: nat, le: bool, b: seq<byte>)
    requires WellFormed(e) && |b| < TWO_32 && b == MarshalItems(Signature(e), items, pos, le)
    requires forall i :: 0 <= i < |items| ==> HasType(items[i], e)
    ensures WireItems(e, items, pos, le, b)
    decreases items, 0
  {
    hide Marshal, Wire, Signature, WellFormed, HasType;
    if items != [] {
      var first := Marshal(Signature(e), items[0], pos, le);
      var n := |first|;
      Cut(b, first, MarshalItems(Signature(e), items[1..], pos + n, le));
      WireIs(e, items[0], pos, le, b[..n]);
      ItemsMeet(e, items[1..], pos + n, le, b[n..]);
      ItemsPut(e, items, pos, le, b, n);
    }
  }

  lemma ItemsTaken(e: Type, items: seq<Value>, pos: nat, le: bool, b: seq<byte>) returns (n: nat)
    requires items != [] && WireItems(e, items, pos, le, b)
    ensures n <= |b| && Wire(e, items[0], pos, le, b[..n]) && WireItems(e, items[1..], pos + n, le, b[n..])
  {
    hide Wire;
    n :| 0 <= n <= |b| && Wire(e, items[0], pos, le, b[..n]) && WireItems(e, items[1..], pos + n, le, b[n..]);
  }

  lemma ItemsPut(e: Type, items: seq<Value>, pos: nat, le: bool, b: seq<byte>, n: nat)
    requires items != [] && n <= |b|
    requires Wire(e, items[0], pos, le, b[..n]) && WireItems(e, items[1..], pos + n, le, b[n..])
    ensures WireItems(e, items, pos, le, b)
  {
    hide Wire;
  }

  lemma {:induction false} FieldsAre(fs: seq<Type>, items: seq<Value>, pos: nat, le: bool, b: seq<byte>)
    requires |fs| == |items| && |SignatureList(fs)| == |items| && |b| < TWO_32
    requires forall i :: 0 <= i < |fs| ==> WellFormed(fs[i]) && HasType(items[i], fs[i])
    ensures WireFields(fs, items, pos, le, b) <==> b == MarshalFields(SignatureList(fs), items, pos, le)
    decreases items, 0
  {
    hide Marshal, Wire, Signature, WellFormed, HasType;
    if items != [] {
      ListLength(fs[1..]);
      assert SignatureList(fs)[1..] == SignatureList(fs[1..]);
      var first := Marshal(Signature(fs[0]), items[0], pos, le);
      var rest := MarshalFields(SignatureList(fs[1..]), items[1..], pos + |first|, le);
      Cut(b, first, rest);
      if n :| 0 <= n <= |b| && Wire(fs[0], items[0], pos, le, b[..n])
              && WireFields(fs[1..], items[1..], pos + n, le, b[n..])
      {
        WireIs(fs[0], items[0], pos, le, b[..n]);
        assert n == |first|;
        FieldsAre(fs[1..], items[1..], pos + n, le, b[n..]);
        assert b == first + rest;
      }
      if b == first + rest {
        WireIs(fs[0], items[0], pos, le, b[..|first|]);
        FieldsAre(fs[1..], items[1..], pos + |first|, le, b[|first|..]);
      }
    }
  }

  /** Zeros up to a boundary, and then what is there. */
  lemma PaddedIs(b: seq<byte>, n: nat, pos: nat, rest: seq<byte>)
    requires Boundary(n)
    ensures var p := Gap(pos, n);
      b == Padding(pos, n) + rest <==> p <= |b| && AllZero(b[..p]) && b[p..] == rest
    ensures Aligned(pos, n) == pos + Gap(pos, n)
  {
    GapIs(pos, n);
    hide Gap, Aligned, AllZero, Zeros;
    var p := Gap(pos, n);
    Cut(b, Padding(pos, n), rest);
    if p <= |b| { ZerosAre(b[..p], p); }
  }

  lemma {:induction false} StructIs(fs: seq<Type>, items: seq<Value>, pos: nat, le: bool, b: seq<byte>)
    requires fs != [] && |fs| == |items| && |b| < TWO_32
    requires forall i :: 0 <= i < |fs| ==> WellFormed(fs[i]) && HasType(items[i], fs[i])
    ensures WireStruct(fs, items, pos, le, b) <==> b == MarshalStruct(Signatures(fs), items, pos, le)
    decreases items, 1
  {
    hide MarshalFields, Signatures, SignatureList, SplitSignature, WireFields, WellFormed, HasType;
    hide Padding, AllZero, Gap, Aligned;
    SplitJoined(fs);
    ListLength(fs);
    var p := Gap(pos, 8);
    PaddedIs(b, 8, pos, MarshalFields(SignatureList(fs), items, pos + p, le));
    if p <= |b| { FieldsAre(fs, items, pos + p, le, b[p..]); }
  }

  lemma {:induction false} MapIs(k: Type, w: Type, entries: seq<Entry>, pos: nat, le: bool, b: seq<byte>)
    requires WellFormed(k) && WellFormed(w) && EntriesTyped(k, w, entries) && |b| < TWO_32
    ensures WireMap(k, w, entries, pos, le, b) <==> b == MarshalMap(Signature(k) + Signature(w), entries, pos, le)
    decreases entries, 2
  {
    hide MarshalEntries, Signature, WellFormed, EntriesTyped, SplitSignature, Counted, ArrayBytes, WireEntries;
    hide Start, ArrayStart;
    DictSplit(k, w);
    var s := Start(8, pos);
    StartIs(8, pos);
    CountedIs(b, 8, pos, le, MarshalEntries(Signature(k), Signature(w), entries, pos + s, le));
    if s <= |b| { EntriesAre(k, w, entries, pos + s, le, b[s..]); }
  }

  ghost predicate EntriesTyped(k: Type, w: Type, entries: seq<Entry>) {
    forall i :: 0 <= i < |entries| ==> HasType(entries[i].key, k) && HasType(entries[i].value, w)
  }

  lemma EntriesAre(k: Type, w: Type, entries: seq<Entry>, pos: nat, le: bool, b: seq<byte>)
    requires WellFormed(k) && WellFormed(w) && |b| < TWO_32 && EntriesTyped(k, w, entries)
    ensures WireEntries(k, w, entries, pos, le, b) <==>
      b == MarshalEntries(Signature(k), Signature(w), entries, pos, le)
    decreases entries, 1
  {
    hide WireEntries, MarshalEntries, EntriesTyped, Signature;
    if WireEntries(k, w, entries, pos, le, b) { EntriesWritten(k, w, entries, pos, le, b); }
    if b == MarshalEntries(Signature(k), Signature(w), entries, pos, le) { EntriesMeet(k, w, entries, pos, le, b); }
  }

  lemma {:induction false} EntriesWritten(k: Type, w: Type, entries: seq<Entry>, pos: nat, le: bool, b: seq<byte>)
    requires WellFormed(k) && WellFormed(w) && |b| < TWO_32 && EntriesTyped(k, w, entries)
    requires WireEntries(k, w, entries, pos, le, b)
    ensures b == MarshalEntries(Signature(k), Signature(w), entries, pos, le)
    decreases entries, 0
  {
    hide MarshalEntry, Wire, WireEntry, Signature, WellFormed, HasType;
    if entries != [] {
      var n := EntriesTaken(k, w, entries, pos, le, b);
      EntriesOne(k, w, entries, pos, le);
      hide MarshalEntries, WireEntries, EntriesTyped;
      EntryIs(k, w, entries[0], pos, le, b[..n]);
      EntriesWritten(k, w, entries[1..], pos + n, le, b[n..]);
      assert b == b[..n] + b[n..];
    }
  }

  lemma {:induction false} EntriesMeet(k: Type, w: Type, entries: seq<Entry>, pos: nat, le: bool, b: seq<byte>)
    requires WellFormed(k) && WellFormed(w) && |b| < TWO_32 && EntriesTyped(k, w, entries)
    requires b == MarshalEntries(Signature(k), Signature(w), entries, pos, le)
    ensures WireEntries(k, w, entries, pos, le, b)
    decreases entries, 0
  {
    hide MarshalEntry, Wire, WireEntry, Signature, WellFormed, HasType;
    if entries != [] {
      EntriesOne(k, w, entries, pos, le);
      hide MarshalEntries, WireEntries, EntriesTyped;
      var first := MarshalEntry(Signature(k), Signature(w), entries[0], pos, le);
      var n := |first|;
      Cut(b, first, MarshalEntries(Signature(k), Signature(w), entries[1..], pos + n, le));
      EntryIs(k, w, entries[0], pos, le, b[..n]);
      EntriesMeet(k, w, entries[1..], pos + n, le, b[n..]);
      EntriesPut(k, w, entries, pos, le, b, n);
    }
  }

  lemma EntriesTaken(k: Type, w: Type, entries: seq<Entry>, pos: nat, le: bool, b: seq<byte>) returns (n: nat)
    requires entries != [] && WireEntries(k, w, entries, pos, le, b)
    ensures n <= |b| && WireEntry(k, w, entries[0], pos, le, b[..n])
    ensures WireEntries(k, w, entries[1..], pos + n, le, b[n..])
  {
    hide WireEntry;
    n :| 0 <= n <= |b| && WireEntry(k, w, entries[0], pos, le, b[..n])
         && WireEntries(k, w, entries[1..], pos + n, le, b[n..]);
  }

  lemma EntriesPut(k: Type, w: Type, entries: seq<Entry>, pos: nat, le: bool, b: seq<byte>, n: nat)
    requires entries != [] && n <= |b| && WireEntry(k, w, entries[0], pos, le, b[..n])
    requires WireEntries(k, w, entries[1..], pos + n, le, b[n..])
    ensures WireEntries(k, w, entries, pos, le, b)
  {
    hide WireEntry;
  }

  lemma EntriesOne(k: Type, w: Type, entries: seq<Entry>, pos: nat, le: bool)
    requires entries != [] && EntriesTyped(k, w, entries)
    ensures HasType(entries[0].key, k) && HasType(entries[0].value, w) && EntriesTyped(k, w, entries[1..])
    ensures var first := MarshalEntry(Signature(k), Signature(w), entries[0], pos, le);
      MarshalEntries(Signature(k), Signature(w), entries, pos, le) ==
      first + MarshalEntries(Signature(k), Signature(w), entries[1..], pos + |first|, le)
  {
    hide MarshalEntry, Signature, HasType;
  }

  lemma {:induction false} EntryIs(k: Type, w: Type, e: Entry, pos: nat, le: bool, b: seq<byte>)
    requires WellFormed(k) && WellFormed(w) && HasType(e.key, k) && HasType(e.value, w) && |b| < TWO_32
    ensures WireEntry(k, w, e, pos, le, b) <==> b == MarshalEntry(Signature(k), Signature(w), e, pos, le)
    decreases e, 1
  {
    hide Marshal, WirePair, Signature, WellFormed, HasType, Padding, AllZero, Gap, Aligned;
    var p := Gap(pos, 8);
    var key := Marshal(Signature(k), e.key, pos + p, le);
    var value := Marshal(Signature(w), e.value, pos + p + |key|, le);
    Regroup(Padding(pos, 8), key, value);
    PaddedIs(b, 8, pos, key + value);
    if p <= |b| { PairIs(k, w, e, pos + p, le, b[p..]); }
  }

  lemma {:induction false} PairIs(k: Type, w: Type, e: Entry, pos: nat, le: bool, b: seq<byte>)
    requires WellFormed(k) && WellFormed(w) && HasType(e.key, k) && HasType(e.value, w) && |b| < TWO_32
    ensures var key := Marshal(Signature(k), e.key, pos, le);
      WirePair(k, w, e, pos, le, b) <==> b == key + Marshal(Signature(w), e.value, pos + |key|, le)
    decreases e, 0
  {
    hide Marshal, Wire, Signature, WellFormed, HasType;
    var key := Marshal(Signature(k), e.key, pos, le);
    var value := Marshal(Signature(w), e.value, pos + |key|, le);
    Cut(b, key, value);
    if n :| 0 <= n <= |b| && Wire(k, e.key, pos, le, b[..n]) && Wire(w, e.value, pos + n, le, b[n..]) {
      WireIs(k, e.key, pos, le, b[..n]);
      WireIs(w, e.value, pos + n, le, b[n..]);
    }
    if b == key + value {
      WireIs(k, e.key, pos, le, b[..|key|]);
      WireIs(w, e.value, pos + |key|, le, b[|key|..]);
    }
  }

  /* ---- What else the Reader takes ---- */

  /** A number that is not 0 is true, whatever it is. */
  lemma AnyBool(w: seq<byte>, n: nat, buf: seq<byte>, pos: nat, le: bool)
    requires n < TWO_32 && Word(w, n, 4, pos, le) && At(buf, pos, w)
    ensures Read("b", buf, pos, le) == Some((Bool(n != 0), pos + |w|))
  {
    hide Fixed, ReadInt, Word;
    Powers();
    WordIs(w, n, 4, pos, le);
    FixedBack(n, 4, buf, pos, le);
    BasicDispatch('b', Bool(true), buf, pos, le);
  }

  /** A key that comes again keeps its place and gets the later value; a new one goes to the end. */
  lemma {:induction false} SetExactly(entries: seq<Entry>, key: Value, value: Value)
    requires Keyed(entries)
    ensures |Set(entries, key, value)| >= |entries|
    ensures forall i :: 0 <= i < |entries| ==>
      Set(entries, key, value)[i] == if entries[i].key == key then Entry(key, value) else entries[i]
    ensures Set(entries, key, value)[|entries|..] ==
      if exists i :: 0 <= i < |entries| && entries[i].key == key then [] else [Entry(key, value)]
  {
    if entries != [] && entries[0].key != key {
      SetExactly(entries[1..], key, value);
      var r, later := Set(entries, key, value), Set(entries[1..], key, value);
      assert r == [entries[0]] + later;
      assert r[|entries|..] == later[|entries| - 1..];
      assert forall i :: 0 <= i < |entries[1..]| ==> entries[1..][i] == entries[i + 1];
      if i :| 0 <= i < |entries| && entries[i].key == key { assert entries[1..][i - 1].key == key; }
    } else if entries != [] {
      assert forall i :: 0 < i < |entries| ==> entries[i].key != key;
      assert Set(entries, key, value)[|entries|..] == [];
    }
  }
}
