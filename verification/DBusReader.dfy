/** The Reader of server/src/dbus.ts: a cursor over a buffer. It is proved to read what `Read` says. */
module DBusReader {
  import opened Bytes
  import opened DBusSignature
  import V = DBusValues
  import opened DBusValues

  class Reader {
    const buf: seq<byte>
    const le: bool
    var pos: nat

    constructor (buf: seq<byte>, le: bool, pos: nat)
      ensures this.buf == buf && this.le == le && this.pos == pos
    {
      this.buf, this.le, this.pos := buf, le, pos;
    }

    /** The value read, and the cursor after it. */
    ghost predicate Reads(r: Option<Value>, spec: Result)
      reads this
    {
      match spec
      case None => r.None?
      case Some((v, next)) => r == Some(v) && pos == next
    }

    /** A number of `k` bytes on its boundary. */
    method Fixed(k: nat) returns (r: Option<nat>)
      requires Boundary(k)
      modifies this
      ensures match ReadInt(buf, k, old(pos), le)
        case None => r.None?
        case Some((n, next)) => r == Some(n) && pos == next
    {
      pos := Aligned(pos, k);
      if pos + k > |buf| { return None; }
      r := Some(GetInt(buf[pos..pos + k], le));
      pos := pos + k;
    }

    method ReadText(code: char) returns (r: Option<seq<byte>>)
      modifies this
      ensures match V.ReadText(code, buf, old(pos), le)
        case None => r.None?
        case Some((b, next)) => r == Some(b) && pos == next
    {
      var len: nat := 0;
      if code == 'g' {
        if pos >= |buf| { return None; }
        len := buf[pos];
        pos := pos + 1;
      } else {
        var n := Fixed(4);
        if n.None? { return None; }
        len := n.value;
      }
      if pos + len + 1 > |buf| { return None; }
      r := Some(buf[pos..pos + len]);
      pos := pos + len + 1;
    }

    method ReadScalar(code: char) returns (r: Option<Value>)
      modifies this
      ensures Reads(r, V.ReadScalar(code, buf, old(pos), le))
    {
      if code == 'y' {
        if pos >= |buf| { return None; }
        r := Some(Num(buf[pos]));
        pos := pos + 1;
        return;
      }
      var u := Fixed(Align(code));
      if u.None? { return None; }
      if code == 'b' { return Some(Bool(u.value != 0)); }
      if code == 'd' { return Some(Double(u.value)); }
      return Some(Num(if IsSigned(code) then Signed(u.value, Modulus(code)) else u.value));
    }

    method Read(sig: string) returns (r: Option<Value>)
      modifies this
      ensures Reads(r, V.Read(sig, buf, old(pos), le))
      decreases Left(buf, pos), |sig|, 1
    {
      hide V.ReadVariant, V.ReadArray, V.ReadStruct, V.ReadText, V.ReadScalar;
      if sig == "" { return None; }
      var c := sig[0];
      if c == 'v' {
        r := ReadVariant();
      } else if c == 'a' {
        r := ReadArray(sig[1..]);
      } else if c == '(' {
        if |sig| < 2 { return None; }
        r := ReadStruct(sig[1..|sig| - 1]);
      } else if c == 's' || c == 'o' || c == 'g' {
        var text := ReadText(c);
        r := if text.None? then None else Some(Text(text.value));
      } else if c in BASIC_CODES {
        r := ReadScalar(c);
      } else {
        r := None;
      }
    }

    method ReadVariant() returns (r: Option<Value>)
      modifies this
      ensures Reads(r, V.ReadVariant(buf, old(pos), le))
      decreases Left(buf, pos), 0, 0
    {
      hide V.Read, V.ReadText;
      var text := ReadText('g');
      if text.None? { return None; }
      var v := Read(StringOf(text.value));
      r := if v.None? then None else Some(Var(StringOf(text.value), v.value));
    }

    method ReadArray(elem: string) returns (r: Option<Value>)
      modifies this
      ensures Reads(r, V.ReadArray(elem, buf, old(pos), le))
      decreases Left(buf, pos), |elem|, 3
    {
      hide V.ReadMap, V.ReadItems;
      var len := Fixed(4);
      if elem == "" || len.None? { return None; }
      pos := Aligned(pos, Align(elem[0]));
      var end := pos + len.value;
      if pos > |buf| { return None; }
      if elem == "y" {
        if end > |buf| { return None; }
        r := Some(ByteArray(buf[pos..end]));
        pos := end;
      } else if elem[0] == '{' {
        if |elem| < 2 { return None; }
        r := ReadMap(elem[1..|elem| - 1], end);
      } else {
        r := ReadItems(elem, end);
      }
    }

    method ReadItems(elem: string, end: nat) returns (r: Option<Value>)
      requires pos <= |buf|
      modifies this
      ensures match V.ReadItems(elem, buf, old(pos), end, le)
        case None => r.None?
        case Some((items, next)) => r == Some(List(items)) && pos == next
      decreases Left(buf, pos), |elem|, 2
    {
      hide V.Read;
      ghost var start := pos;
      var items := [];
      ghost var all := V.ReadItems(elem, buf, pos, end, le);
      JoinNothing(all);
      while pos < end
        invariant start <= pos <= |buf|
        invariant all == JoinItems(items, V.ReadItems(elem, buf, pos, end, le))
        decreases Left(buf, pos)
      {
        var at := pos;
        var item := Read(elem);
        ItemsStep(items, elem, buf, at, end, le);
        if item.None? || pos <= at { return None; }
        items := items + [item.value];
      }
      assert items + [] == items;
      return Some(List(items));
    }

    method ReadStruct(inner: string) returns (r: Option<Value>)
      modifies this
      ensures Reads(r, V.ReadStruct(inner, buf, old(pos), le))
      decreases Left(buf, pos), |inner|, 3
    {
      hide V.Read, V.ReadFields;
      var types := SplitTypes(inner);
      pos := Aligned(pos, 8);
      if types.None? || pos > |buf| { return None; }
      SplitLength(inner);
      r := ReadFields(types.value);
    }

    method ReadFields(types: seq<string>) returns (r: Option<Value>)
      requires pos <= |buf|
      modifies this
      ensures match V.ReadFields(types, buf, old(pos), le)
        case None => r.None?
        case Some((items, next)) => r == Some(List(items)) && pos == next
      decreases Left(buf, pos), TotalLength(types), 2
    {
      hide V.Read;
      ghost var start := pos;
      var items := [];
      ghost var all := V.ReadFields(types, buf, pos, le);
      JoinNothing(all);
      assert types[0..] == types;
      var i := 0;
      while i < |types|
        invariant 0 <= i <= |types| && start <= pos <= |buf|
        invariant all == JoinItems(items, V.ReadFields(types[i..], buf, pos, le))
      {
        ghost var at := pos;
        PartLength(types, i);
        var item := Read(types[i]);
        FieldsStep(items, types, i, buf, at, le);
        if item.None? { return None; }
        items := items + [item.value];
        i := i + 1;
      }
      assert types[|types|..] == [] && items + [] == items;
      return Some(List(items));
    }

    method ReadMap(inner: string, end: nat) returns (r: Option<Value>)
      requires pos <= |buf|
      modifies this
      ensures Reads(r, V.ReadMap(inner, buf, old(pos), end, le))
      decreases Left(buf, pos), |inner|, 3
    {
      hide V.Read;
      var types := SplitTypes(inner);
      if types.None? || |types.value| != 2 { return None; }
      SplitLength(inner);
      PartLength(types.value, 0);
      PartLength(types.value, 1);
      var held: seq<Entry> := [];
      ghost var start := pos;
      ghost var all := V.ReadEntries(types.value[0], types.value[1], [], buf, pos, end, le);
      while pos < end
        invariant start <= pos <= |buf|
        invariant all == V.ReadEntries(types.value[0], types.value[1], held, buf, pos, end, le)
        decreases Left(buf, pos)
      {
        var at := pos;
        pos := Aligned(pos, 8);
        var key := Read(types.value[0]);
        if key.None? { return None; }
        var value := Read(types.value[1]);
        if value.None? || pos <= at { return None; }
        held := Set(held, key.value, value.value);
      }
      return Some(Map(held));
    }
  }

  /** What was read, and then the rest. */
  function JoinItems(items: seq<Value>, more: Option<(seq<Value>, nat)>): Option<(seq<Value>, nat)> {
    if more.None? then None else Some((items + more.value.0, more.value.1))
  }

  lemma JoinNothing(more: Option<(seq<Value>, nat)>)
    ensures JoinItems([], more) == more
  {
    if more.Some? { assert [] + more.value.0 == more.value.0; }
  }

  lemma ItemsStep(items: seq<Value>, elem: string, buf: seq<byte>, pos: nat, end: nat, le: bool)
    requires pos <= |buf| && pos < end
    ensures var first := V.Read(elem, buf, pos, le);
      JoinItems(items, V.ReadItems(elem, buf, pos, end, le)) ==
      if first.None? || first.value.1 <= pos then None
      else JoinItems(items + [first.value.0], V.ReadItems(elem, buf, first.value.1, end, le))
  {
    hide V.Read;
    var first := V.Read(elem, buf, pos, le);
    if first.Some? && first.value.1 > pos {
      var rest := V.ReadItems(elem, buf, first.value.1, end, le);
      if rest.Some? {
        assert items + ([first.value.0] + rest.value.0) == (items + [first.value.0]) + rest.value.0;
      }
    }
  }

  lemma FieldsStep(items: seq<Value>, types: seq<string>, i: nat, buf: seq<byte>, pos: nat, le: bool)
    requires i < |types| && pos <= |buf|
    ensures var first := V.Read(types[i], buf, pos, le);
      JoinItems(items, V.ReadFields(types[i..], buf, pos, le)) ==
      if first.None? then None
      else JoinItems(items + [first.value.0], V.ReadFields(types[i + 1..], buf, first.value.1, le))
  {
    hide V.Read;
    assert types[i..][1..] == types[i + 1..];
    var first := V.Read(types[i], buf, pos, le);
    if first.Some? {
      var rest := V.ReadFields(types[i + 1..], buf, first.value.1, le);
      if rest.Some? {
        assert items + ([first.value.0] + rest.value.0) == (items + [first.value.0]) + rest.value.0;
      }
    }
  }

  lemma {:induction false} PartLength(types: seq<string>, i: nat)
    requires i < |types|
    ensures |types[i]| <= TotalLength(types)
  {
    if i > 0 { PartLength(types[1..], i - 1); }
  }
}
