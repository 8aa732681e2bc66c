/** Reading back what was written gives the value, and stops where the writing stopped. */
module DBusRoundTrip {
  import opened Bytes
  import opened DBusSignature
  import opened DBusValues

  /** `m` stands in the buffer at `pos`. */
  predicate At(buf: seq<byte>, pos: nat, m: seq<byte>) {
    pos + |m| <= |buf| && buf[pos..pos + |m|] == m
  }

  lemma AtSplit(buf: seq<byte>, pos: nat, a: seq<byte>, b: seq<byte>)
    requires At(buf, pos, a + b)
    ensures At(buf, pos, a) && At(buf, pos + |a|, b)
  {
    assert buf[pos..pos + |a|] == (a + b)[..|a|];
    assert buf[pos + |a|..pos + |a| + |b|] == (a + b)[|a|..];
  }

  lemma FixedBack(n: nat, k: nat, buf: seq<byte>, pos: nat, le: bool)
    requires Boundary(k) && n < Power256(k) && At(buf, pos, Fixed(n, k, pos, le))
    ensures |Fixed(n, k, pos, le)| == Aligned(pos, k) - pos + k
    ensures ReadInt(buf, k, pos, le) == Some((n, pos + |Fixed(n, k, pos, le)|))
  {
    AtSplit(buf, pos, Padding(pos, k), PutInt(n, k, le));
    IntBack(n, k, le);
  }

  /** A number in range comes back from its width. */
  lemma NumFits(code: char, n: int)
    requires code in BASIC_CODES && code != 'y' && InRange(code, n)
    ensures Power256(Align(code)) == Modulus(code)
    ensures n == if IsSigned(code) then Signed(Unsigned(n, Modulus(code)), Modulus(code))
                 else Unsigned(n, Modulus(code))
  {
    Powers();
  }

  lemma NumBack(code: char, n: int, buf: seq<byte>, pos: nat, le: bool)
    requires code in BASIC_CODES && code != 'y' && InRange(code, n)
    requires At(buf, pos, Scalar(code, Num(n), pos, le))
    ensures |Scalar(code, Num(n), pos, le)| > 0
    ensures ReadScalar(code, buf, pos, le) == Some((Num(n), pos + |Scalar(code, Num(n), pos, le)|))
  {
    hide Fixed, ReadInt, Power256, Modulus, Signed, Unsigned, IsSigned, Align, At;
    NumFits(code, n);
    NumCode(code, n);
    FixedBack(Unsigned(n, Modulus(code)), Align(code), buf, pos, le);
  }

  lemma NumCode(code: char, n: int)
    requires InRange(code, n)
    ensures code != 'b' && code != 'd'
  {
  }

  lemma ByteBack(n: int, buf: seq<byte>, pos: nat, le: bool)
    requires 0 <= n < 256 && At(buf, pos, [n])
    ensures ReadScalar('y', buf, pos, le) == Some((Num(n), pos + 1))
  {
    assert buf[pos..pos + 1] == [n];
    assert buf[pos] == n;
  }

  lemma BoolBack(b: bool, buf: seq<byte>, pos: nat, le: bool)
    requires At(buf, pos, Scalar('b', Bool(b), pos, le))
    ensures |Scalar('b', Bool(b), pos, le)| > 0
    ensures ReadScalar('b', buf, pos, le) == Some((Bool(b), pos + |Scalar('b', Bool(b), pos, le)|))
  {
    hide Fixed, ReadInt, Power256;
    Powers();
    FixedBack(if b then 1 else 0, 4, buf, pos, le);
  }

  lemma DoubleBack(bits: nat, buf: seq<byte>, pos: nat, le: bool)
    requires bits < P64 && At(buf, pos, Scalar('d', Double(bits), pos, le))
    ensures |Scalar('d', Double(bits), pos, le)| > 0
    ensures ReadScalar('d', buf, pos, le) == Some((Double(bits), pos + |Scalar('d', Double(bits), pos, le)|))
  {
    hide Fixed, ReadInt, Power256;
    Powers();
    FixedBack(bits, 8, buf, pos, le);
  }

  lemma ScalarBack(code: char, v: Value, buf: seq<byte>, pos: nat, le: bool)
    requires code in BASIC_CODES && HasType(v, Basic(code)) && !v.Text?
    requires At(buf, pos, Scalar(code, v, pos, le))
    ensures |Scalar(code, v, pos, le)| > 0
    ensures ReadScalar(code, buf, pos, le) == Some((v, pos + |Scalar(code, v, pos, le)|))
  {
    hide ReadScalar, Fixed, At;
    match v {
      case Num(n) =>
        if code == 'y' {
          ByteBack(n, buf, pos, le);
        } else {
          NumBack(code, n, buf, pos, le);
        }
      case Bool(b) => BoolBack(b, buf, pos, le);
      case Double(bits) => DoubleBack(bits, buf, pos, le);
    }
  }

  lemma ShortTextBack(text: seq<byte>, buf: seq<byte>, pos: nat, le: bool)
    requires |text| <= 255 && At(buf, pos, [|text| % 256] + text + [0])
    ensures ReadText('g', buf, pos, le) == Some((text, pos + |text| + 2))
  {
    AtSplit(buf, pos, [|text| % 256] + text, [0]);
    AtSplit(buf, pos, [|text| % 256], text);
    assert buf[pos..pos + 1] == [|text|];
    assert buf[pos] == |text|;
  }

  lemma LongTextBack(text: seq<byte>, buf: seq<byte>, pos: nat, le: bool)
    requires |text| < TWO_32 && At(buf, pos, Fixed(|text|, 4, pos, le) + text + [0])
    ensures ReadText('s', buf, pos, le) == Some((text, pos + |Fixed(|text|, 4, pos, le)| + |text| + 1))
  {
    hide Fixed, ReadInt, Power256;
    Powers();
    var head := Fixed(|text|, 4, pos, le);
    AtSplit(buf, pos, head + text, [0]);
    AtSplit(buf, pos, head, text);
    FixedBack(|text|, 4, buf, pos, le);
  }

  lemma TextReadBack(code: char, text: seq<byte>, buf: seq<byte>, pos: nat, le: bool)
    requires At(buf, pos, TextBytes(code, text, pos, le))
    requires if code == 'g' then |text| <= 255 else |text| < TWO_32
    ensures |TextBytes(code, text, pos, le)| > 0
    ensures ReadText(code, buf, pos, le) == Some((text, pos + |TextBytes(code, text, pos, le)|))
  {
    hide Fixed, ReadInt, At;
    if code == 'g' {
      ShortTextBack(text, buf, pos, le);
    } else {
      LongTextBack(text, buf, pos, le);
      assert ReadText(code, buf, pos, le) == ReadText('s', buf, pos, le);
    }
  }

  /** An array's header read back, and where its elements are. */
  lemma ArrayHead(length: nat, align: nat, body: seq<byte>, buf: seq<byte>, pos: nat, le: bool)
    requires Boundary(align) && length < TWO_32 && |body| == length
    requires At(buf, pos, ArrayBytes(length, align, body, pos, le))
    ensures ReadInt(buf, 4, pos, le).Some?
    ensures var (len, at) := ReadInt(buf, 4, pos, le).value;
      && len == length && Aligned(at, align) == ArrayStart(align, pos)
      && At(buf, ArrayStart(align, pos), body)
      && pos + |ArrayBytes(length, align, body, pos, le)| == ArrayStart(align, pos) + length
  {
    hide Fixed, ReadInt;
    Powers();
    var head := Fixed(length, 4, pos, le);
    var pad := Padding(Aligned(pos, 4) + 4, align);
    AtSplit(buf, pos, head + pad, body);
    AtSplit(buf, pos, head, pad);
    FixedBack(length, 4, buf, pos, le);
  }

  lemma {:induction false} SetNew(held: seq<Entry>, key: Value, value: Value)
    requires forall i :: 0 <= i < |held| ==> held[i].key != key
    ensures Set(held, key, value) == held + [Entry(key, value)]
  {
    if held != [] { SetNew(held[1..], key, value); }
  }

  /** Signatures of arrays, maps and structs taken apart as the code takes them apart. */
  lemma ArrayInner(e: Type)
    requires WellFormed(e)
    ensures var sig := Signature(Array(e));
      |sig| >= 2 && sig[0] == 'a' && sig[1..] == Signature(e)
    ensures Signature(e)[0] != '{' && (Signature(e) == "y" <==> e == Basic('y'))
  {
    FirstCode(e);
    assert Signature(Array(e))[1..] == Signature(e);
  }

  lemma DictInner(k: Type, w: Type)
    requires WellFormed(k) && WellFormed(w)
    ensures var sig, inner := Signature(Dict(k, w)), Signature(k) + Signature(w);
      && |sig| >= 3 && sig[0] == 'a' && sig[2..|sig| - 1] == inner
      && sig[1..] == ['{'] + inner + ['}']
  {
    DictText(Signature(k) + Signature(w), Signature(Dict(k, w)));
  }

  lemma DictText(inner: string, sig: string)
    requires sig == ['a'] + (['{'] + inner + ['}'])
    ensures |sig| >= 3 && sig[0] == 'a' && sig[2..|sig| - 1] == inner
    ensures sig[1..] == ['{'] + inner + ['}']
  {
  }

  lemma DictSplit(k: Type, w: Type)
    requires WellFormed(k) && WellFormed(w)
    ensures SplitSignature(Signature(k) + Signature(w)) == Some([Signature(k), Signature(w)])
  {
    var ts := [k, w];
    assert ts[1..] == [w] && [w][1..] == [];
    assert Signatures([w]) == Signature(w) + "" == Signature(w);
    assert Signatures(ts) == Signature(k) + Signature(w);
    SplitJoined(ts);
    assert SignatureList([w]) == [Signature(w)];
    assert SignatureList(ts) == [Signature(k), Signature(w)];
  }

  lemma StructInner(fs: seq<Type>)
    requires WellFormed(Struct(fs))
    ensures var sig := Signature(Struct(fs));
      |sig| >= 2 && sig[0] == '(' && sig[1..|sig| - 1] == Signatures(fs)
  {
    assert Signature(Struct(fs)) == ['('] + Signatures(fs) + [')'];
  }

  lemma {:induction false} ListLength(fs: seq<Type>)
    ensures |SignatureList(fs)| == |fs|
  {
    if fs != [] { ListLength(fs[1..]); }
  }

  /** Which part of the writer and of the reader a signature leads to. */
  lemma Dispatch(sig: string, v: Value, buf: seq<byte>, pos: nat, le: bool)
    requires sig != ""
    ensures sig[0] == 'v' && v.Var? ==>
      Marshal(sig, v, pos, le) == MarshalVariant(v.sig, v.value, pos, le)
    ensures sig[0] == 'v' ==> Read(sig, buf, pos, le) == ReadVariant(buf, pos, le)
    ensures sig[0] == 'a' && v.ByteArray? ==>
      Marshal(sig, v, pos, le) == ArrayBytes(|v.bytes|, 1, v.bytes, pos, le)
    ensures sig[0] == 'a' && v.List? ==>
      Marshal(sig, v, pos, le) == MarshalArray(sig[1..], v.items, pos, le)
    ensures v.Map? && |sig| >= 3 ==>
      Marshal(sig, v, pos, le) == MarshalMap(sig[2..|sig| - 1], v.entries, pos, le)
    ensures sig[0] == 'a' ==> Read(sig, buf, pos, le) == ReadArray(sig[1..], buf, pos, le)
    ensures sig[0] == '(' && |sig| >= 2 && v.List? ==>
      Marshal(sig, v, pos, le) == MarshalStruct(sig[1..|sig| - 1], v.items, pos, le)
    ensures sig[0] == '(' && |sig| >= 2 ==>
      Read(sig, buf, pos, le) == ReadStruct(sig[1..|sig| - 1], buf, pos, le)
  {
  }

  lemma BasicDispatch(c: char, v: Value, buf: seq<byte>, pos: nat, le: bool)
    requires c in BASIC_CODES && HasType(v, Basic(c))
    ensures Marshal([c], v, pos, le) == if v.Text? then TextBytes(c, v.text, pos, le) else Scalar(c, v, pos, le)
    ensures Read([c], buf, pos, le) ==
      if v.Text? then TextValue(ReadText(c, buf, pos, le)) else ReadScalar(c, buf, pos, le)
  {
    hide ReadScalar, ReadText, Scalar, TextBytes, ReadVariant, ReadArray, ReadStruct;
    BasicIsPlain(c);
  }

  lemma TextLength(c: char, text: seq<byte>, pos: nat, le: bool)
    ensures |text| <= |TextBytes(c, text, pos, le)|
  {
  }

  lemma BasicBack(c: char, v: Value, buf: seq<byte>, pos: nat, le: bool)
    requires c in BASIC_CODES && HasType(v, Basic(c))
    requires |Marshal([c], v, pos, le)| < TWO_32 && At(buf, pos, Marshal([c], v, pos, le))
    ensures |Marshal([c], v, pos, le)| > 0
    ensures Read([c], buf, pos, le) == Some((v, pos + |Marshal([c], v, pos, le)|))
  {
    hide ReadScalar, ReadText, Scalar, Marshal, Read, TextBytes, At;
    BasicDispatch(c, v, buf, pos, le);
    if v.Text? {
      TextLength(c, v.text, pos, le);
      TextReadBack(c, v.text, buf, pos, le);
    } else {
      ScalarBack(c, v, buf, pos, le);
    }
  }

  /**
   Any value of any well-formed type, written at any position, in either byte
   order, with anything around it, reads back as itself and exactly to its end.
   */
  lemma {:induction false} ReadBack(t: Type, v: Value, buf: seq<byte>, pos: nat, le: bool)
    requires WellFormed(t) && HasType(v, t)
    requires |Marshal(Signature(t), v, pos, le)| < TWO_32 && At(buf, pos, Marshal(Signature(t), v, pos, le))
    ensures |Marshal(Signature(t), v, pos, le)| > 0
    ensures Read(Signature(t), buf, pos, le) == Some((v, pos + |Marshal(Signature(t), v, pos, le)|))
    decreases v, 3
  {
    hide Marshal, Read, MarshalVariant, ReadVariant, At;
    match t {
      case Basic(c) => BasicBack(c, v, buf, pos, le);
      case Variant =>
        Dispatch(['v'], v, buf, pos, le);
        VariantBack(v, buf, pos, le);
      case Array(e) => AnyArrayBack(e, v, buf, pos, le);
      case Dict(k, w) => DictBack(k, w, v, buf, pos, le);
      case Struct(fs) => AnyStructBack(fs, v, buf, pos, le);
    }
  }

  lemma {:induction false} AnyArrayBack(e: Type, v: Value, buf: seq<byte>, pos: nat, le: bool)
    requires WellFormed(e) && HasType(v, Array(e))
    requires var m := Marshal(Signature(Array(e)), v, pos, le); |m| < TWO_32 && At(buf, pos, m)
    ensures var m := Marshal(Signature(Array(e)), v, pos, le);
      |m| > 0 && Read(Signature(Array(e)), buf, pos, le) == Some((v, pos + |m|))
    decreases v, 2
  {
    hide Marshal, Read, MarshalArray, ReadItems, Signature, ReadInt;
    Dispatch(Signature(Array(e)), v, buf, pos, le);
    ArrayInner(e);
    if e == Basic('y') {
      ArrayHead(|v.bytes|, 1, v.bytes, buf, pos, le);
    } else {
      ArrayBack(e, v.items, buf, pos, le);
    }
  }

  lemma {:induction false} DictBack(k: Type, w: Type, v: Value, buf: seq<byte>, pos: nat, le: bool)
    requires WellFormed(Dict(k, w)) && HasType(v, Dict(k, w))
    requires var m := Marshal(Signature(Dict(k, w)), v, pos, le); |m| < TWO_32 && At(buf, pos, m)
    ensures var m := Marshal(Signature(Dict(k, w)), v, pos, le);
      |m| > 0 && Read(Signature(Dict(k, w)), buf, pos, le) == Some((v, pos + |m|))
    decreases v, 2
  {
    hide Marshal, Read, MarshalMap, ReadArray, Signature;
    Dispatch(Signature(Dict(k, w)), v, buf, pos, le);
    DictInner(k, w);
    MapBack(k, w, v.entries, buf, pos, le);
  }

  lemma {:induction false} AnyStructBack(fs: seq<Type>, v: Value, buf: seq<byte>, pos: nat, le: bool)
    requires WellFormed(Struct(fs)) && HasType(v, Struct(fs))
    requires var m := Marshal(Signature(Struct(fs)), v, pos, le); |m| < TWO_32 && At(buf, pos, m)
    ensures var m := Marshal(Signature(Struct(fs)), v, pos, le);
      |m| > 0 && Read(Signature(Struct(fs)), buf, pos, le) == Some((v, pos + |m|))
    decreases v, 2
  {
    hide Marshal, Read, MarshalStruct, ReadStruct, Signature, Signatures;
    Dispatch(Signature(Struct(fs)), v, buf, pos, le);
    StructInner(fs);
    StructBack(fs, v.items, buf, pos, le);
  }

  lemma {:induction false} VariantBack(v: Value, buf: seq<byte>, pos: nat, le: bool)
    requires HasType(v, Variant)
    requires var m := MarshalVariant(v.sig, v.value, pos, le); |m| < TWO_32 && At(buf, pos, m)
    ensures var m := MarshalVariant(v.sig, v.value, pos, le);
      |m| > 0 && ReadVariant(buf, pos, le) == Some((v, pos + |m|))
    decreases v, 1
  {
    hide Marshal, Read, Signature, WellFormed, TextBytes, ReadText;
    var u :| WellFormed(u) && Signature(u) == v.sig && HasType(v.value, u);
    var head := TextBytes('g', TextOf(v.sig), pos, le);
    var rest := Marshal(v.sig, v.value, pos + |head|, le);
    AtSplit(buf, pos, head, rest);
    TextReadBack('g', TextOf(v.sig), buf, pos, le);
    TextBack(v.sig);
    ReadBack(u, v.value, buf, pos + |head|, le);
  }

  lemma {:induction false} ArrayBack(e: Type, items: seq<Value>, buf: seq<byte>, pos: nat, le: bool)
    requires WellFormed(e) && e != Basic('y') && forall i :: 0 <= i < |items| ==> HasType(items[i], e)
    requires var m := MarshalArray(Signature(e), items, pos, le); |m| < TWO_32 && At(buf, pos, m)
    ensures var m := MarshalArray(Signature(e), items, pos, le);
      |m| > 0 && ReadArray(Signature(e), buf, pos, le) == Some((List(items), pos + |m|))
    decreases items, 1
  {
    hide MarshalItems, ReadItems, ReadInt, Signature, WellFormed, HasType;
    ArrayInner(e);
    var align := Align(Signature(e)[0]);
    var start := ArrayStart(align, pos);
    var body := MarshalItems(Signature(e), items, start, le);
    ArrayHead(|body|, align, body, buf, pos, le);
    ItemsBack(e, items, buf, start, le);
  }

  lemma {:induction false} ItemsBack(e: Type, items: seq<Value>, buf: seq<byte>, pos: nat, le: bool)
    requires WellFormed(e) && forall i :: 0 <= i < |items| ==> HasType(items[i], e)
    requires var m := MarshalItems(Signature(e), items, pos, le); |m| < TWO_32 && At(buf, pos, m)
    ensures var end := pos + |MarshalItems(Signature(e), items, pos, le)|;
      ReadItems(Signature(e), buf, pos, end, le) == Some((items, end))
    decreases items, 0
  {
    hide Marshal, Read, Signature, WellFormed, HasType;
    if items != [] {
      var first := Marshal(Signature(e), items[0], pos, le);
      var rest := MarshalItems(Signature(e), items[1..], pos + |first|, le);
      AtSplit(buf, pos, first, rest);
      assert items == [items[0]] + items[1..];
      ReadBack(e, items[0], buf, pos, le);
      ItemsBack(e, items[1..], buf, pos + |first|, le);
    }
  }

  lemma {:induction false} StructBack(fs: seq<Type>, items: seq<Value>, buf: seq<byte>, pos: nat, le: bool)
    requires fs != [] && |fs| == |items|
    requires forall i :: 0 <= i < |fs| ==> WellFormed(fs[i]) && HasType(items[i], fs[i])
    requires var m := MarshalStruct(Signatures(fs), items, pos, le); |m| < TWO_32 && At(buf, pos, m)
    ensures var m := MarshalStruct(Signatures(fs), items, pos, le);
      |m| > 0 && ReadStruct(Signatures(fs), buf, pos, le) == Some((List(items), pos + |m|))
    decreases items, 1
  {
    hide MarshalFields, ReadFields, Signature, Signatures, SignatureList, WellFormed, HasType, SplitSignature, Zeros;
    SplitJoined(fs);
    ListLength(fs);
    var at := Aligned(pos, 8);
    var body := MarshalFields(SignatureList(fs), items, at, le);
    AtSplit(buf, pos, Padding(pos, 8), body);
    FieldsBack(fs, items, buf, at, le);
  }

  lemma {:induction false} FieldsBack(fs: seq<Type>, items: seq<Value>, buf: seq<byte>, pos: nat, le: bool)
    requires |fs| == |items| && |SignatureList(fs)| == |items| && pos <= |buf|
    requires forall i :: 0 <= i < |fs| ==> WellFormed(fs[i]) && HasType(items[i], fs[i])
    requires var m := MarshalFields(SignatureList(fs), items, pos, le); |m| < TWO_32 && At(buf, pos, m)
    ensures var m := MarshalFields(SignatureList(fs), items, pos, le);
      && (fs != [] ==> |m| > 0)
      && ReadFields(SignatureList(fs), buf, pos, le) == Some((items, pos + |m|))
    decreases items, 0
  {
    hide Marshal, Read, Signature, WellFormed, HasType;
    if items != [] {
      ListLength(fs[1..]);
      assert SignatureList(fs)[1..] == SignatureList(fs[1..]);
      var first := Marshal(Signature(fs[0]), items[0], pos, le);
      var rest := MarshalFields(SignatureList(fs[1..]), items[1..], pos + |first|, le);
      AtSplit(buf, pos, first, rest);
      assert items == [items[0]] + items[1..];
      ReadBack(fs[0], items[0], buf, pos, le);
      FieldsBack(fs[1..], items[1..], buf, pos + |first|, le);
    }
  }

  lemma {:induction false} MapBack(k: Type, w: Type, entries: seq<Entry>, buf: seq<byte>, pos: nat, le: bool)
    requires WellFormed(k) && WellFormed(w) && Keyed(entries)
    requires forall i :: 0 <= i < |entries| ==> HasType(entries[i].key, k) && HasType(entries[i].value, w)
    requires var m := MarshalMap(Signature(k) + Signature(w), entries, pos, le); |m| < TWO_32 && At(buf, pos, m)
    ensures var m := MarshalMap(Signature(k) + Signature(w), entries, pos, le);
      && |m| > 0
      && ReadArray(['{'] + (Signature(k) + Signature(w)) + ['}'], buf, pos, le) == Some((Map(entries), pos + |m|))
    decreases entries, 1
  {
    hide MarshalEntries, ReadEntries, ReadInt, ReadItems, Signature, WellFormed, HasType, SplitSignature;
    DictSplit(k, w);
    var inner := Signature(k) + Signature(w);
    var elem := ['{'] + inner + ['}'];
    assert elem[1..|elem| - 1] == inner && elem[0] == '{' && elem != "y";
    var start := ArrayStart(8, pos);
    var body := MarshalEntries(Signature(k), Signature(w), entries, start, le);
    ArrayHead(|body|, 8, body, buf, pos, le);
    EntriesBack(k, w, [], entries, buf, start, le);
    assert [] + entries == entries;
  }

  lemma {:induction false} EntriesBack(k: Type, w: Type, held: seq<Entry>, entries: seq<Entry>,
                                       buf: seq<byte>, pos: nat, le: bool)
    requires WellFormed(k) && WellFormed(w) && Keyed(held + entries) && pos <= |buf|
    requires forall i :: 0 <= i < |entries| ==> HasType(entries[i].key, k) && HasType(entries[i].value, w)
    requires var m := MarshalEntries(Signature(k), Signature(w), entries, pos, le); |m| < TWO_32 && At(buf, pos, m)
    ensures var end := pos + |MarshalEntries(Signature(k), Signature(w), entries, pos, le)|;
      ReadEntries(Signature(k), Signature(w), held, buf, pos, end, le) == Some((held + entries, end))
    decreases entries, 0
  {
    hide MarshalEntry, Read, Signature, WellFormed, HasType, Set;
    if entries == [] {
      assert held + [] == held;
    } else {
      var e := entries[0];
      var first := MarshalEntry(Signature(k), Signature(w), e, pos, le);
      var rest := MarshalEntries(Signature(k), Signature(w), entries[1..], pos + |first|, le);
      AtSplit(buf, pos, first, rest);
      EntryBack(k, w, e, buf, pos, le);
      forall i | 0 <= i < |held| ensures held[i].key != e.key {
        assert (held + entries)[i] == held[i] && (held + entries)[|held|] == e;
      }
      SetNew(held, e.key, e.value);
      assert held + [e] + entries[1..] == held + entries;
      EntriesBack(k, w, held + [e], entries[1..], buf, pos + |first|, le);
    }
  }

  lemma {:induction false} EntryBack(k: Type, w: Type, e: Entry, buf: seq<byte>, pos: nat, le: bool)
    requires WellFormed(k) && WellFormed(w) && HasType(e.key, k) && HasType(e.value, w)
    requires var m := MarshalEntry(Signature(k), Signature(w), e, pos, le); |m| < TWO_32 && At(buf, pos, m)
    ensures |MarshalEntry(Signature(k), Signature(w), e, pos, le)| > 0
    ensures Read(Signature(k), buf, Aligned(pos, 8), le).Some?
    ensures var (key, next) := Read(Signature(k), buf, Aligned(pos, 8), le).value;
      && key == e.key
      && Read(Signature(w), buf, next, le) ==
         Some((e.value, pos + |MarshalEntry(Signature(k), Signature(w), e, pos, le)|))
    decreases e, 0
  {
    hide Marshal, Read, Signature, WellFormed, HasType;
    var at := Aligned(pos, 8);
    var key := Marshal(Signature(k), e.key, at, le);
    var value := Marshal(Signature(w), e.value, at + |key|, le);
    AtSplit(buf, pos, Padding(pos, 8) + key, value);
    AtSplit(buf, pos, Padding(pos, 8), key);
    ReadBack(k, e.key, buf, at, le);
    ReadBack(w, e.value, buf, at + |key|, le);
  }
}
