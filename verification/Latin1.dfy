/** The two text encodings of the X clipboard, compositor/src/xwm.c. */
module Latin1 {
  import opened Bytes

  const QUESTION: byte := 0x3f

  /** One Latin-1 character in UTF-8: `0xC0 | c >> 6`, then `0x80 | c & 0x3F`. */
  function Encoded(c: byte): seq<byte> {
    if c < 0x80 then [c] else [0xc0 + c / 64, 0x80 + c % 64]
  }

  function ToUtf8(s: seq<byte>): seq<byte> {
    if s == [] then [] else Encoded(s[0]) + ToUtf8(s[1..])
  }

  /** How many bytes are taken to follow a lead byte; a stray continuation counts as a lead. */
  function Extra(c: byte): (n: nat)
    ensures n <= 3
  {
    if c < 0x80 then 0 else if c < 0xe0 then 1 else if c < 0xf0 then 2 else 3
  }

  /** The bits of a lead byte that belong to the character: `c & (0x3F >> extra)`. */
  function LeadBits(c: byte): nat {
    match Extra(c)
    case 0 => c
    case 1 => c % 32
    case 2 => c % 16
    case _ => c % 8
  }

  /** `cp` continued by up to `n` of the bytes of `s`. */
  function Continued(cp: nat, s: seq<byte>, n: nat): nat
    decreases n
  {
    if n == 0 || s == [] then cp else Continued(cp * 64 + s[0] % 64, s[1..], n - 1)
  }

  function Narrowed(cp: nat): byte {
    if cp < 0x100 then cp else QUESTION
  }

  function ToLatin1(s: seq<byte>): seq<byte>
    decreases |s|
  {
    if s == [] then []
    else
      var n := Extra(s[0]);
      [Narrowed(Continued(LeadBits(s[0]), s[1..], n))] + ToLatin1(s[Min(1 + n, |s|)..])
  }

  /* ---- The loops ---- */

  method Latin1ToUtf8(s: seq<byte>) returns (out: array<byte>, n: nat)
    ensures n <= out.Length && out[..n] == ToUtf8(s)
  {
    out := new byte[|s| * 2 + 1];
    n := 0;
    var i := 0;
    assert s[0..] == s;
    while i < |s|
      invariant 0 <= i <= |s| && n <= 2 * i
      invariant out[..n] + ToUtf8(s[i..]) == ToUtf8(s)
    {
      var c := s[i];
      assert s[i..][1..] == s[i + 1..];
      ghost var before := out[..n];
      if c < 0x80 {
        out[n] := c;
        n := n + 1;
      } else {
        out[n] := 0xc0 + c / 64;
        n := n + 1;
        out[n] := 0x80 + c % 64;
        n := n + 1;
      }
      assert out[..n] == before + Encoded(c);
      Moved(before, Encoded(c), ToUtf8(s[i + 1..]), ToUtf8(s[i..]), ToUtf8(s));
      i := i + 1;
    }
    assert s[i..] == [];
    out[n] := 0;
    assert out[..n] + [] == out[..n];
  }

  lemma Moved(done: seq<byte>, next: seq<byte>, rest: seq<byte>, left: seq<byte>, all: seq<byte>)
    requires done + left == all && left == next + rest
    ensures (done + next) + rest == all
  {
  }

  /** The character that starts at `i`, as far as the text goes. */
  method CodePoint(s: seq<byte>, i: nat) returns (cp: nat)
    requires i < |s|
    ensures cp == Continued(LeadBits(s[i]), s[i + 1..], Extra(s[i]))
  {
    hide Continued;
    var extra := Extra(s[i]);
    cp := LeadBits(s[i]);
    var k := 1;
    while k <= extra && i + k < |s|
      invariant 1 <= k <= extra + 1 && i + k <= |s|
      invariant Continued(cp, s[i + k..], extra + 1 - k) == Continued(LeadBits(s[i]), s[i + 1..], extra)
    {
      ContinuedOn(cp, s[i + k..], extra + 1 - k);
      assert s[i + k..][1..] == s[i + k + 1..];
      cp := cp * 64 + s[i + k] % 64;
      k := k + 1;
    }
    ContinuedEnd(cp, s[i + k..], extra + 1 - k);
  }

  method Utf8ToLatin1(s: seq<byte>) returns (out: array<byte>, n: nat)
    ensures n <= out.Length && out[..n] == ToLatin1(s)
  {
    hide ToLatin1, Continued, LeadBits, Narrowed;
    out := new byte[|s| + 1];
    n := 0;
    var i := 0;
    ghost var done: seq<byte> := [];
    assert s[0..] == s && done + ToLatin1(s) == ToLatin1(s);
    while i < |s|
      invariant 0 <= n <= i && n <= |s|
      invariant out[..n] == done && done + ToLatin1(s[Min(i, |s|)..]) == ToLatin1(s)
    {
      var c := s[i];
      var extra := Extra(c);
      var cp := CodePoint(s, i);
      out[n] := Narrowed(cp);
      n := n + 1;
      ToLatin1Step(s, i);
      Moved(done, [Narrowed(cp)], ToLatin1(s[Min(i + 1 + extra, |s|)..]), ToLatin1(s[i..]), ToLatin1(s));
      done := done + [Narrowed(cp)];
      i := i + 1 + extra;
    }
    assert s[Min(i, |s|)..] == [];
    ToLatin1Empty();
    assert done + [] == done;
    out[n] := 0;
  }

  lemma ToLatin1Empty()
    ensures ToLatin1([]) == []
  {
  }

  lemma ContinuedOn(cp: nat, s: seq<byte>, n: nat)
    requires n > 0 && s != []
    ensures Continued(cp, s, n) == Continued(cp * 64 + s[0] % 64, s[1..], n - 1)
  {
  }

  lemma ContinuedEnd(cp: nat, s: seq<byte>, n: nat)
    requires n == 0 || s == []
    ensures Continued(cp, s, n) == cp
  {
  }

  lemma ToLatin1Step(s: seq<byte>, i: nat)
    requires i < |s|
    ensures var n := Extra(s[i]);
      ToLatin1(s[i..]) ==
      [Narrowed(Continued(LeadBits(s[i]), s[i + 1..], n))] + ToLatin1(s[Min(i + 1 + n, |s|)..])
  {
    var n := Extra(s[i]);
    assert s[i..][1..] == s[i + 1..];
    assert s[i..][Min(1 + n, |s| - i)..] == s[Min(i + 1 + n, |s|)..];
  }

  /* ---- What the encodings promise ---- */

  lemma EncodedBack(c: byte, rest: seq<byte>)
    ensures ToLatin1(Encoded(c) + rest) == [c] + ToLatin1(rest)
  {
    hide ToLatin1, Continued;
    var s := Encoded(c) + rest;
    assert s[0..] == s;
    ToLatin1Step(s, 0);
    if c < 0x80 {
      assert s[1..] == rest;
      ContinuedEnd(c, rest, 0);
    } else {
      assert s[1..] == [0x80 + c % 64] + rest && s[2..] == rest && s[1..][1..] == rest;
      LeadBack(c);
      ContinuedOn(c / 64, s[1..], 1);
      ContinuedEnd(c, rest, 0);
    }
  }

  lemma LeadBack(c: byte)
    requires c >= 0x80
    ensures LeadBits(0xc0 + c / 64) == c / 64 && Extra(0xc0 + c / 64) == 1
    ensures c / 64 * 64 + (0x80 + c % 64) % 64 == c
  {
  }

  /** Latin-1 text comes back from UTF-8 byte for byte, whatever the bytes. */
  lemma {:induction false} Latin1Back(s: seq<byte>)
    ensures ToLatin1(ToUtf8(s)) == s
  {
    if s != [] {
      EncodedBack(s[0], ToUtf8(s[1..]));
      Latin1Back(s[1..]);
    }
  }

  /** UTF-8 of characters that Latin-1 has. */
  predicate InLatin1(t: seq<byte>)
    decreases |t|
  {
    || t == []
    || (t[0] < 0x80 && InLatin1(t[1..]))
    || (0xc2 <= t[0] <= 0xc3 && |t| > 1 && 0x80 <= t[1] < 0xc0 && InLatin1(t[2..]))
  }

  lemma {:induction false} Utf8InLatin1(s: seq<byte>)
    ensures InLatin1(ToUtf8(s))
  {
    if s != [] {
      var t := ToUtf8(s);
      Utf8InLatin1(s[1..]);
      assert t[|Encoded(s[0])|..] == ToUtf8(s[1..]);
    }
  }

  /** The other way round text survives exactly when Latin-1 has all of its characters. */
  lemma {:induction false} Utf8Back(t: seq<byte>)
    ensures ToUtf8(ToLatin1(t)) == t <==> InLatin1(t)
    decreases |t|
  {
    if InLatin1(t) && t != [] {
      var c: byte := if t[0] < 0x80 then t[0] else (t[0] - 0xc0) * 64 + t[1] % 64;
      var n := |Encoded(c)|;
      assert t == Encoded(c) + t[n..];
      EncodedBack(c, t[n..]);
      Utf8Back(t[n..]);
      assert ([c] + ToLatin1(t[n..]))[1..] == ToLatin1(t[n..]);
    }
    Utf8InLatin1(ToLatin1(t));
  }

  predicate Follows(b: byte) {
    0x80 <= b < 0xc0
  }

  /** The six bits of a byte that follows another. */
  function Bits(b: byte): int {
    b as int - 0x80
  }

  /** A lead with the six bits of each of up to three bytes after it. */
  function Extended(lead: int, s: seq<byte>): int
    requires |s| <= 3
  {
    match |s|
    case 0 => lead
    case 1 => lead * 0x40 + Bits(s[0])
    case 2 => lead * 0x1000 + Bits(s[0]) * 0x40 + Bits(s[1])
    case _ => lead * 0x4_0000 + Bits(s[0]) * 0x1000 + Bits(s[1]) * 0x40 + Bits(s[2])
  }

  /** The character some bytes are in UTF-8, one to four of them. */
  predicate IsUtf8(s: seq<byte>, cp: int) {
    && 1 <= |s| <= 4
    && (forall i :: 0 <= i < |s[1..]| ==> Follows(s[1..][i]))
    && match |s|
       case 1 => s[0] < 0x80 && cp == s[0]
       case 2 => 0xc0 <= s[0] < 0xe0 && cp == Extended(s[0] as int - 0xc0, s[1..])
       case 3 => 0xe0 <= s[0] < 0xf0 && cp == Extended(s[0] as int - 0xe0, s[1..])
       case _ => 0xf0 <= s[0] < 0xf8 && cp == Extended(s[0] as int - 0xf0, s[1..])
  }

  /** Each byte of Latin-1 becomes the UTF-8 of its own number. */
  lemma EncodedExactly(c: byte)
    ensures IsUtf8(Encoded(c), c) && |Encoded(c)| == if c < 0x80 then 1 else 2
  {
  }

  lemma ContinuedBy(cp: nat, s: seq<byte>, rest: seq<byte>)
    requires |s| <= 3 && forall i :: 0 <= i < |s| ==> Follows(s[i])
    ensures Continued(cp, s + rest, |s|) == Extended(cp, s)
    decreases |s|
  {
    if |s| == 0 {
      ContinuedEnd(cp, s + rest, 0);
    } else {
      hide Continued;
      assert (s + rest)[1..] == s[1..] + rest;
      ContinuedOn(cp, s + rest, |s|);
      ContinuedBy(cp * 64 + s[0] % 64, s[1..], rest);
    }
  }

  lemma LeadOf(s: seq<byte>, cp: int)
    requires IsUtf8(s, cp)
    ensures 1 <= |s| <= 4 && Extra(s[0]) == |s| - 1
    ensures forall i :: 0 <= i < |s[1..]| ==> Follows(s[1..][i])
    ensures cp == Extended(LeadBits(s[0]), s[1..])
  {
    LeadBitsAre(s[0]);
    if |s| == 1 { assert s[1..] == []; }
  }

  lemma LeadBitsAre(b: byte)
    ensures b < 0x80 ==> LeadBits(b) == b && Extra(b) == 0
    ensures 0xc0 <= b < 0xe0 ==> LeadBits(b) == b as int - 0xc0 && Extra(b) == 1
    ensures 0xe0 <= b < 0xf0 ==> LeadBits(b) == b as int - 0xe0 && Extra(b) == 2
    ensures 0xf0 <= b < 0xf8 ==> LeadBits(b) == b as int - 0xf0 && Extra(b) == 3
  {
  }

  /** Each character becomes one byte: itself, or a question mark if Latin-1 does not have it. */
  lemma CharNarrowed(s: seq<byte>, cp: nat, rest: seq<byte>)
    requires IsUtf8(s, cp)
    ensures ToLatin1(s + rest) == [if cp < 0x100 then cp else 0x3f] + ToLatin1(rest)
  {
    var t := s + rest;
    LeadOf(s, cp);
    ContinuedBy(LeadBits(s[0]), s[1..], rest);
    hide ToLatin1, Continued, IsUtf8, LeadBits, Extra, Extended, Follows;
    assert t[0..] == t && t[1..] == s[1..] + rest && t[|s|..] == rest && t[0] == s[0];
    ToLatin1Step(t, 0);
  }

  /** A byte that should have followed another, standing alone, is taken for a lead and takes the next with it. */
  lemma StrayTakesNext(c: byte, b: byte, rest: seq<byte>)
    requires 0x80 <= c < 0xc0
    ensures ToLatin1([c]) == [c % 32]
    ensures var cp := c % 32 * 0x40 + b % 64;
      ToLatin1([c, b] + rest) == [if cp < 0x100 then cp else 0x3f] + ToLatin1(rest)
  {
    StrayAlone(c);
    StrayLead(c);
    hide ToLatin1, Continued, LeadBits, Extra;
    var s := [c, b] + rest;
    assert s[0..] == s && s[1..] == [b] + rest && s[1..][1..] == rest && s[2..] == rest;
    ToLatin1Step(s, 0);
    ContinuedOn(LeadBits(c), s[1..], 1);
    ContinuedEnd(LeadBits(c) * 64 + b % 64, rest, 0);
  }

  lemma StrayAlone(c: byte)
    requires 0x80 <= c < 0xc0
    ensures ToLatin1([c]) == [c % 32]
  {
    assert [c][1..] == [];
  }

  lemma StrayLead(c: byte)
    requires 0x80 <= c < 0xc0
    ensures LeadBits(c) == c % 32 && Extra(c) == 1
  {
  }
}
