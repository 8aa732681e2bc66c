/**
 The Writer of server/src/dbus.ts: a cursor over a buffer that grows by
 doubling, array lengths patched in once the elements are written, padding
 that is zero because nothing has been written there. It is proved to produce
 the bytes `Marshal` says, least significant byte first.
 */
module DBusWriter {
  import opened Bytes
  import opened DBusSignature
  import opened DBusValues
  import opened DBusRoundTrip

  class Writer {
    var buf: array<byte>
    var pos: nat

    /** What lies ahead of the cursor is zero. */
    ghost predicate Valid()
      reads this, buf
    {
      && 0 < buf.Length && pos <= buf.Length
      && forall i :: pos <= i < buf.Length ==> buf[i] == 0
    }

    ghost function Written(): (b: seq<byte>)
      reads this, buf
      requires Valid()
      ensures |b| == pos
    {
      buf[..pos]
    }

    constructor ()
      ensures Valid() && Written() == [] && fresh(buf)
    {
      buf := new byte[256](_ => 0);
      pos := 0;
    }

    /** Room for `n` more bytes, in a buffer of twice the size if it takes one. */
    method Need(n: nat)
      requires Valid()
      modifies `buf
      ensures Valid() && (buf == old(buf) || fresh(buf)) && pos + n <= buf.Length
      ensures Written() == old(Written())
    {
      if pos + n <= buf.Length { return; }
      var size := buf.Length * 2;
      while size < pos + n
        invariant size > buf.Length
        decreases pos + n - size
      {
        size := size * 2;
      }
      var next := new byte[size](_ => 0);
      forall i | 0 <= i < pos { next[i] := buf[i]; }
      assert next[..pos] == buf[..pos];
      buf := next;
    }

    method Align(n: nat)
      requires Valid() && Boundary(n)
      modifies this, buf
      ensures Valid() && (buf == old(buf) || fresh(buf))
      ensures Written() == old(Written()) + Padding(old(pos), n)
    {
      var padded := Aligned(pos, n);
      Need(padded - pos);
      assert buf[pos..padded] == Padding(pos, n);
      assert buf[..padded] == buf[..pos] + buf[pos..padded];
      pos := padded;
    }

    /** Bytes copied in at the cursor; there has to be room. */
    method Put(b: seq<byte>)
      requires Valid() && pos + |b| <= buf.Length
      modifies `pos, buf
      ensures Valid() && Written() == old(Written()) + b
    {
      ghost var before := buf[..pos];
      forall i | 0 <= i < |b| { buf[pos + i] := b[i]; }
      pos := pos + |b|;
      assert buf[..pos] == before + b;
    }

    /** A number of `k` bytes on its boundary. */
    method PutFixed(n: nat, k: nat)
      requires Valid() && Boundary(k)
      modifies this, buf
      ensures Valid() && (buf == old(buf) || fresh(buf))
      ensures Written() == old(Written()) + Fixed(n, k, old(pos), true)
    {
      Align(k);
      Need(k);
      Put(Little(n, k));
      assert Written() == old(Written()) + Fixed(n, k, old(pos), true);
    }

    method WriteText(code: char, text: seq<byte>)
      requires Valid()
      modifies this, buf
      ensures Valid() && (buf == old(buf) || fresh(buf))
      ensures Written() == old(Written()) + TextBytes(code, text, old(pos), true)
    {
      hide Fixed;
      ghost var was := Written();
      if code == 'g' {
        Need(|text| + 2);
        Put([|text| % 256]);
        Put(text);
        Put([0]);
        TextParts(was, [|text| % 256], text, [0]);
      } else {
        PutFixed(|text|, 4);
        Need(|text| + 1);
        Put(text);
        Put([0]);
        TextParts(was, Fixed(|text|, 4, |was|, true), text, [0]);
      }
    }

    /** One byte. */
    method PutByte(b: byte)
      requires Valid()
      modifies this, buf
      ensures Valid() && (buf == old(buf) || fresh(buf))
      ensures Written() == old(Written()) + [b] && pos == old(pos) + 1
    {
      Need(1);
      Put([b]);
      assert |Written()| == pos;
    }

    method WriteScalar(code: char, v: Value)
      requires Valid() && code in BASIC_CODES && HasType(v, Basic(code)) && !v.Text?
      modifies this, buf
      ensures Valid() && (buf == old(buf) || fresh(buf))
      ensures Written() == old(Written()) + Scalar(code, v, old(pos), true)
    {
      match v {
        case Num(n) =>
          if code == 'y' {
            PutByte(n % 256);
          } else {
            PutFixed(Unsigned(n, Modulus(code)), DBusSignature.Align(code));
          }
        case Bool(b) => PutFixed(if b then 1 else 0, 4);
        case Double(bits) => PutFixed(bits, 8);
      }
    }

    /** The length, known at last, over the zeros that held its place. */
    method Patch(at: nat, n: nat, ghost before: seq<byte>, ghost zeros: seq<byte>, ghost after: seq<byte>)
      requires Valid() && Written() == before + zeros + after && |before| == at && |zeros| == 4
      modifies buf
      ensures Valid() && Written() == before + Little(n, 4) + after
    {
      var b := Little(n, 4);
      ghost var was := buf[..];
      assert was[..pos] == before + zeros + after;
      forall i | 0 <= i < 4 { buf[at + i] := b[i]; }
      assert buf[..pos] == before + b + after;
    }

    /** Closes an array opened at `was`: its elements are `body`, and its length goes in. */
    method CloseArray(lengthAt: nat, start: nat, ghost was: seq<byte>, ghost align: nat, ghost body: seq<byte>)
      requires Valid() && Boundary(align) && pos == start + |body| && lengthAt == Aligned(|was|, 4)
      requires Written() == was + Fixed(0, 4, |was|, true) + Padding(Aligned(|was|, 4) + 4, align) + body
      modifies buf
      ensures Valid() && Written() == was + ArrayBytes(|body|, align, body, |was|, true)
    {
      hide Little, Padding, Aligned, Fixed, ArrayBytes;
      ghost var pad, tail := Padding(|was|, 4), Padding(Aligned(|was|, 4) + 4, align);
      FixedParts(0, |was|);
      PaddingLength(|was|, 4);
      ArrayParts(align, body, |was|);
      Regrouped(was, pad, Little(0, 4), tail, body);
      Patch(lengthAt, pos - start, was + pad, Little(0, 4), tail + body);
      Regrouped(was, pad, Little(|body|, 4), tail, body);
    }

    /** Up to where an array's elements begin. */
    method OpenArray(align: nat) returns (lengthAt: nat)
      requires Valid() && Boundary(align)
      modifies this, buf
      ensures Valid() && (buf == old(buf) || fresh(buf))
      ensures pos == ArrayStart(align, old(pos)) && lengthAt + 4 <= pos
      ensures Written() == old(Written()) + Fixed(0, 4, old(pos), true) + Padding(Aligned(old(pos), 4) + 4, align)
      ensures lengthAt == Aligned(old(pos), 4)
    {
      PutFixed(0, 4);
      lengthAt := pos - 4;
      Align(align);
    }

    /** The whole of an array whose elements are `b`. */
    method WriteBytes(b: seq<byte>)
      requires Valid()
      modifies this, buf
      ensures Valid() && (buf == old(buf) || fresh(buf))
      ensures Written() == old(Written()) + ArrayBytes(|b|, 1, b, old(pos), true)
    {
      ghost var was := Written();
      var lengthAt := OpenArray(1);
      var start := pos;
      Need(|b|);
      Put(b);
      CloseArray(lengthAt, start, was, 1, b);
    }

    /** `sig` is the signature of `t`, the type `v` is written as. */
    method Write(sig: string, v: Value, ghost t: Type)
      requires Valid() && WellFormed(t) && sig == Signature(t) && HasType(v, t)
      modifies this, buf
      ensures Valid() && (buf == old(buf) || fresh(buf))
      ensures Written() == old(Written()) + Marshal(sig, v, old(pos), true)
      decreases v, 3
    {
      hide Marshal, Signature, MarshalVariant, MarshalArray, MarshalMap, MarshalStruct;
      FirstCode(t);
      Dispatch(sig, v, [], pos, true);
      if sig[0] == 'v' {
        WriteVariant(v.sig, v.value);
      } else if sig[0] == 'a' {
        if v.ByteArray? {
          WriteBytes(v.bytes);
        } else if v.Map? {
          DictInner(t.key, t.value);
          WriteMap(sig[2..|sig| - 1], v.entries, t.key, t.value);
        } else {
          ArrayInner(t.elem);
          WriteArray(sig[1..], v.items, t.elem);
        }
      } else if sig[0] == '(' {
        StructInner(t.fields);
        WriteStruct(sig[1..|sig| - 1], v.items, t.fields);
      } else {
        BasicDispatch(sig[0], v, [], pos, true);
        BasicSignature(sig[0]);
        if v.Text? {
          WriteText(sig[0], v.text);
        } else {
          WriteScalar(sig[0], v);
        }
      }
    }

    method WriteVariant(sig: string, v: Value)
      requires Valid() && AsciiText(sig) && exists u :: WellFormed(u) && Signature(u) == sig && HasType(v, u)
      modifies this, buf
      ensures Valid() && (buf == old(buf) || fresh(buf))
      ensures Written() == old(Written()) + MarshalVariant(sig, v, old(pos), true)
      decreases v, 4
    {
      hide Marshal, Signature, HasType, WellFormed, TextBytes, AsciiText, TextOf;
      ghost var u :| WellFormed(u) && Signature(u) == sig && HasType(v, u);
      WriteText('g', TextOf(sig));
      Write(sig, v, u);
      assert Written() == old(Written()) + MarshalVariant(sig, v, old(pos), true);
    }

    method WriteArray(elem: string, items: seq<Value>, ghost e: Type)
      requires Valid() && WellFormed(e) && elem == Signature(e)
      requires forall i :: 0 <= i < |items| ==> HasType(items[i], e)
      modifies this, buf
      ensures Valid() && (buf == old(buf) || fresh(buf))
      ensures Written() == old(Written()) + MarshalArray(elem, items, old(pos), true)
      decreases items, 2
    {
      hide Marshal, MarshalItems, ArrayBytes, HasType, WellFormed, Signature, Fixed, Padding;
      ghost var was := Written();
      var align := DBusSignature.Align(elem[0]);
      var lengthAt := OpenArray(align);
      var start := pos;
      WriteItems(elem, items, e);
      ghost var body := MarshalItems(elem, items, start, true);
      CloseArray(lengthAt, start, was, align, body);
    }

    method WriteItems(elem: string, items: seq<Value>, ghost e: Type)
      requires Valid() && WellFormed(e) && elem == Signature(e)
      requires forall i :: 0 <= i < |items| ==> HasType(items[i], e)
      modifies this, buf
      ensures Valid() && (buf == old(buf) || fresh(buf))
      ensures Written() == old(Written()) + MarshalItems(elem, items, old(pos), true)
      decreases items, 1
    {
      hide Marshal, MarshalItems, HasType, WellFormed, Signature;
      ghost var all := Written() + MarshalItems(elem, items, pos, true);
      assert items[0..] == items;
      for i := 0 to |items|
        invariant Valid() && (buf == old(buf) || fresh(buf))
        invariant all == Written() + MarshalItems(elem, items[i..], pos, true)
      {
        ItemsNext(elem, items, i, pos);
        Write(elem, items[i], e);
      }
      ItemsNone(elem, pos);
      assert items[|items|..] == [] && Written() + [] == Written();
    }

    method WriteStruct(inner: string, items: seq<Value>, ghost fs: seq<Type>)
      requires Valid() && inner == Signatures(fs) && |fs| == |items|
      requires forall i :: 0 <= i < |fs| ==> WellFormed(fs[i]) && HasType(items[i], fs[i])
      modifies this, buf
      ensures Valid() && (buf == old(buf) || fresh(buf))
      ensures Written() == old(Written()) + MarshalStruct(inner, items, old(pos), true)
      decreases items, 2
    {
      hide MarshalFields, Signature, Signatures, SignatureList, SplitSignature, HasType, WellFormed, Padding;
      PaddingLength(pos, 8);
      Align(8);
      SplitJoined(fs);
      ListLength(fs);
      var split := SplitTypes(inner);
      WriteFields(split.value, items, fs);
      assert Written() == old(Written()) + MarshalStruct(inner, items, old(pos), true);
    }

    /** Each value by its own signature, one after another. */
    method WriteFields(types: seq<string>, items: seq<Value>, ghost fs: seq<Type>)
      requires Valid() && types == SignatureList(fs) && |fs| == |items| == |types|
      requires forall i :: 0 <= i < |fs| ==> WellFormed(fs[i]) && HasType(items[i], fs[i])
      modifies this, buf
      ensures Valid() && (buf == old(buf) || fresh(buf))
      ensures Written() == old(Written()) + MarshalFields(types, items, old(pos), true)
      decreases items, 1
    {
      hide Marshal, MarshalFields, Signature, SignatureList, HasType, WellFormed;
      ListItems(fs);
      ghost var all := Written() + MarshalFields(types, items, pos, true);
      assert items[0..] == items && types[0..] == types;
      for i := 0 to |items|
        invariant Valid() && (buf == old(buf) || fresh(buf))
        invariant all == Written() + MarshalFields(types[i..], items[i..], pos, true)
      {
        FieldsNext(types, items, i, pos);
        Write(types[i], items[i], fs[i]);
      }
      FieldsNone(pos);
      assert items[|items|..] == [] && types[|items|..] == [] && Written() + [] == Written();
    }

    method WriteMap(inner: string, entries: seq<Entry>, ghost k: Type, ghost w: Type)
      requires Valid() && WellFormed(k) && WellFormed(w) && inner == Signature(k) + Signature(w)
      requires forall i :: 0 <= i < |entries| ==> HasType(entries[i].key, k) && HasType(entries[i].value, w)
      modifies this, buf
      ensures Valid() && (buf == old(buf) || fresh(buf))
      ensures Written() == old(Written()) + MarshalMap(inner, entries, old(pos), true)
      decreases entries, 2
    {
      hide MarshalEntries, ArrayBytes, HasType, WellFormed, Signature, SplitSignature, Fixed, Padding;
      ghost var was := Written();
      var lengthAt := OpenArray(8);
      var start := pos;
      DictSplit(k, w);
      var split := SplitTypes(inner);
      var types := split.value;
      WriteEntries(types[0], types[1], entries, k, w);
      ghost var body := MarshalEntries(types[0], types[1], entries, start, true);
      CloseArray(lengthAt, start, was, 8, body);
    }

    method WriteEntries(kSig: string, wSig: string, entries: seq<Entry>, ghost k: Type, ghost w: Type)
      requires Valid() && WellFormed(k) && WellFormed(w) && kSig == Signature(k) && wSig == Signature(w)
      requires forall i :: 0 <= i < |entries| ==> HasType(entries[i].key, k) && HasType(entries[i].value, w)
      modifies this, buf
      ensures Valid() && (buf == old(buf) || fresh(buf))
      ensures Written() == old(Written()) + MarshalEntries(kSig, wSig, entries, old(pos), true)
      decreases entries, 1
    {
      hide MarshalEntries, MarshalEntry, HasType, WellFormed, Signature;
      ghost var all := Written() + MarshalEntries(kSig, wSig, entries, pos, true);
      assert entries[0..] == entries;
      for i := 0 to |entries|
        invariant Valid() && (buf == old(buf) || fresh(buf))
        invariant all == Written() + MarshalEntries(kSig, wSig, entries[i..], pos, true)
      {
        EntriesNext(kSig, wSig, entries, i, pos);
        WriteEntry(kSig, wSig, entries[i], k, w);
      }
      EntriesNone(kSig, wSig, pos);
      assert entries[|entries|..] == [] && Written() + [] == Written();
    }

    method WriteEntry(kSig: string, wSig: string, e: Entry, ghost k: Type, ghost w: Type)
      requires Valid() && WellFormed(k) && WellFormed(w) && kSig == Signature(k) && wSig == Signature(w)
      requires HasType(e.key, k) && HasType(e.value, w)
      modifies this, buf
      ensures Valid() && (buf == old(buf) || fresh(buf))
      ensures Written() == old(Written()) + MarshalEntry(kSig, wSig, e, old(pos), true)
      decreases e, 0
    {
      hide Marshal, Signature, HasType, WellFormed, Padding;
      PaddingLength(pos, 8);
      Align(8);
      Write(kSig, e.key, k);
      Write(wSig, e.value, w);
      assert Written() == old(Written()) + MarshalEntry(kSig, wSig, e, old(pos), true);
    }
  }

  lemma TextParts(was: seq<byte>, n: seq<byte>, text: seq<byte>, end: seq<byte>)
    ensures was + n + text + end == was + (n + text + end)
  {
  }

  lemma Regrouped(was: seq<byte>, pad: seq<byte>, n: seq<byte>, tail: seq<byte>, body: seq<byte>)
    ensures was + (pad + n) + tail + body == (was + pad) + n + (tail + body)
    ensures was + ((pad + n) + tail + body) == (was + pad) + n + (tail + body)
  {
  }

  lemma ArrayParts(align: nat, body: seq<byte>, pos: nat)
    requires Boundary(align)
    ensures ArrayBytes(|body|, align, body, pos, true)
         == (Padding(pos, 4) + Little(|body|, 4)) + Padding(Aligned(pos, 4) + 4, align) + body
  {
  }

  lemma FixedParts(n: nat, pos: nat)
    ensures Fixed(n, 4, pos, true) == Padding(pos, 4) + Little(n, 4)
  {
  }

  lemma PaddingLength(pos: nat, n: nat)
    requires Boundary(n)
    ensures |Padding(pos, n)| == Aligned(pos, n) - pos
  {
  }

  lemma ListItems(fs: seq<Type>)
    ensures |SignatureList(fs)| == |fs|
    ensures forall i :: 0 <= i < |fs| ==> SignatureList(fs)[i] == Signature(fs[i])
  {
    if fs != [] { ListItems(fs[1..]); }
  }

  lemma BasicSignature(c: char)
    requires c in BASIC_CODES
    ensures Signature(Basic(c)) == [c]
  {
  }

  lemma ItemsNext(elem: string, items: seq<Value>, i: nat, pos: nat)
    requires i < |items|
    ensures var first := Marshal(elem, items[i], pos, true);
      MarshalItems(elem, items[i..], pos, true) == first + MarshalItems(elem, items[i + 1..], pos + |first|, true)
  {
    hide Marshal;
    assert items[i..][1..] == items[i + 1..];
  }

  lemma ItemsNone(elem: string, pos: nat)
    ensures MarshalItems(elem, [], pos, true) == []
  {
  }

  lemma FieldsNext(types: seq<string>, items: seq<Value>, i: nat, pos: nat)
    requires |types| == |items| && i < |items|
    ensures var first := Marshal(types[i], items[i], pos, true);
      MarshalFields(types[i..], items[i..], pos, true)
      == first + MarshalFields(types[i + 1..], items[i + 1..], pos + |first|, true)
  {
    hide Marshal;
    assert items[i..][1..] == items[i + 1..] && types[i..][1..] == types[i + 1..];
  }

  lemma FieldsNone(pos: nat)
    ensures MarshalFields([], [], pos, true) == []
  {
  }

  lemma EntriesNext(k: string, w: string, entries: seq<Entry>, i: nat, pos: nat)
    requires i < |entries|
    ensures var first := MarshalEntry(k, w, entries[i], pos, true);
      MarshalEntries(k, w, entries[i..], pos, true)
      == first + MarshalEntries(k, w, entries[i + 1..], pos + |first|, true)
  {
    hide MarshalEntry;
    assert entries[i..][1..] == entries[i + 1..];
  }

  lemma EntriesNone(k: string, w: string, pos: nat)
    ensures MarshalEntries(k, w, [], pos, true) == []
  {
  }
}
