/** Bytes, and unsigned numbers written as bytes. */
module Bytes {
  type byte = x: int | 0 <= x < 256

  datatype Option<+T> = None | Some(value: T)

  const TWO_32: nat := 0x1_0000_0000

  function Min(a: int, b: int): int { if a < b then a else b }

  function Max(a: int, b: int): int { if a < b then b else a }

  /** The low 32 bits of `v`, most significant byte first; each `/ 256` is a shift by eight. */
  function PutU32(v: int): (r: seq<byte>)
    ensures |r| == 4
  {
    var v1 := v / 256;
    var v2 := v1 / 256;
    var v3 := v2 / 256;
    [v3 % 256, v2 % 256, v1 % 256, v % 256]
  }

  function GetU32(b: seq<byte>): (v: nat)
    requires |b| >= 4
    ensures v < TWO_32
  {
    var b0: int, b1: int, b2: int, b3: int := b[0], b[1], b[2], b[3];
    ((b0 * 256 + b1) * 256 + b2) * 256 + b3
  }

  /** Reading undoes writing, modulo the width of the field. */
  lemma GetPutU32(v: int, rest: seq<byte>)
    ensures GetU32(PutU32(v) + rest) == v % TWO_32
  {
    var v1 := v / 256;
    var v2 := v1 / 256;
    var v3 := v2 / 256;
    FourDigits(v, v1, v2, v3, v3 / 256, v % 256, v1 % 256, v2 % 256, v3 % 256);
    assert (PutU32(v) + rest)[..4] == PutU32(v);
  }

  lemma FourDigits(v: int, v1: int, v2: int, v3: int, v4: int, d0: byte, d1: byte, d2: byte, d3: byte)
    requires v == v1 * 256 + d0 && v1 == v2 * 256 + d1 && v2 == v3 * 256 + d2 && v3 == v4 * 256 + d3
    ensures ((d3 * 256 + d2) * 256 + d1) * 256 + d0 == v % TWO_32
  {
    var low := ((d3 * 256 + d2) * 256 + d1) * 256 + d0;
    assert v == v4 * TWO_32 + low && 0 <= low < TWO_32;
  }

  lemma Regroup<T>(a: seq<T>, b: seq<T>, c: seq<T>)
    ensures (a + b) + c == a + (b + c)
  {
  }

  function Concat(parts: seq<seq<byte>>): seq<byte> {
    if parts == [] then [] else parts[0] + Concat(parts[1..])
  }

  lemma ConcatCons(first: seq<byte>, rest: seq<seq<byte>>)
    ensures Concat([first] + rest) == first + Concat(rest)
  {
    assert ([first] + rest)[1..] == rest;
  }

  lemma {:induction false} ConcatSplit(a: seq<seq<byte>>, b: seq<seq<byte>>)
    ensures Concat(a + b) == Concat(a) + Concat(b)
  {
    if a == [] {
      assert a + b == b;
    } else {
      assert (a + b)[1..] == a[1..] + b;
      ConcatSplit(a[1..], b);
    }
  }

  lemma ConcatSnoc(parts: seq<seq<byte>>, last: seq<byte>)
    ensures Concat(parts + [last]) == Concat(parts) + last
  {
    ConcatSplit(parts, [last]);
    ConcatCons(last, []);
    assert [last] + [] == [last] && last + [] == last;
  }
}
