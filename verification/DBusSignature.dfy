/** Type signatures: the strings that drive D-Bus marshalling, server/src/dbus.ts. */
module DBusSignature {
  import opened Bytes

  /** The types a signature is written for; a dictionary is an array of its entries. */
  datatype Type =
    | Basic(code: char)
    | Variant
    | Array(elem: Type)
    | Dict(key: Type, value: Type)
    | Struct(fields: seq<Type>)

  const BASIC_CODES := "ybnqiuxtdsogh"

  predicate WellFormed(t: Type) {
    match t
    case Basic(c) => c in BASIC_CODES
    case Variant => true
    case Array(e) => WellFormed(e)
    case Dict(k, v) => k.Basic? && WellFormed(k) && WellFormed(v)
    case Struct(fs) => fs != [] && forall i :: 0 <= i < |fs| ==> WellFormed(fs[i])
  }

  function Bracketed(open: char, inner: string, close: char): string {
    [open] + inner + [close]
  }

  function Signature(t: Type): (s: string)
    ensures s != ""
    decreases t, 0
  {
    match t
    case Basic(c) => [c]
    case Variant => ['v']
    case Array(e) => ['a'] + Signature(e)
    case Dict(k, v) => ['a'] + Bracketed('{', Signature(k) + Signature(v), '}')
    case Struct(fs) => Bracketed('(', Signatures(fs), ')')
  }

  function Signatures(ts: seq<Type>): string
    decreases ts, 1
  {
    if ts == [] then "" else Signature(ts[0]) + Signatures(ts[1..])
  }

  function Align(code: char): (n: nat)
    ensures n == 1 || n == 2 || n == 4 || n == 8
  {
    match code
    case 'n' => 2
    case 'q' => 2
    case 'b' => 4
    case 'i' => 4
    case 'u' => 4
    case 'h' => 4
    case 's' => 4
    case 'o' => 4
    case 'a' => 4
    case 'x' => 8
    case 't' => 8
    case 'd' => 8
    case '(' => 8
    case '{' => 8
    case _ => 1
  }

  /** The codes the alignment table has a row for. */
  predicate Known(code: char) {
    code in "ybnqiuxtdhsoga({v"
  }

  predicate Opens(c: char) { c == '(' || c == '{' }
  predicate Closes(c: char) { c == ')' || c == '}' }

  function Deeper(depth: int, c: char): int {
    if Opens(c) then depth + 1 else if Closes(c) then depth - 1 else depth
  }

  /** A signature with a code that no type has is none. */
  lemma UnknownRefused(c: char, rest: string)
    requires c !in "ybnqiuxtdsogh" && c !in "av({"
    ensures CompleteLength([c] + rest).None? && SplitSignature([c] + rest).None?
  {
  }

  /** How many characters it takes from `depth` to come back to none, if it ever does. */
  function Closing(s: string, depth: int): (n: Option<nat>)
    ensures n.Some? ==> 0 < n.value <= |s|
  {
    if s == "" then None
    else if Deeper(depth, s[0]) == 0 then Some(1)
    else
      var rest := Closing(s[1..], Deeper(depth, s[0]));
      if rest.None? then None else Some(1 + rest.value)
  }

  /** The length of the complete type `s` begins with; None where the source throws. */
  function CompleteLength(s: string): (n: Option<nat>)
    ensures n.Some? ==> 0 < n.value <= |s|
  {
    if s == "" then None
    else if s[0] == 'a' then
      var rest := CompleteLength(s[1..]);
      if rest.None? then None else Some(1 + rest.value)
    else if Opens(s[0]) then Closing(s, 0)
    else if Known(s[0]) then Some(1)
    else None
  }

  function SplitSignature(s: string): (ts: Option<seq<string>>)
    ensures ts.Some? ==> forall i :: 0 <= i < |ts.value| ==> 0 < |ts.value[i]| <= |s|
  {
    if s == "" then Some([])
    else
      var n := CompleteLength(s);
      if n.None? then None
      else
        var rest := SplitSignature(s[n.value..]);
        if rest.None? then None else Some([s[..n.value]] + rest.value)
  }

  /* ---- Reading back what was written ---- */

  function Beyond(n: nat, more: Option<nat>): Option<nat> {
    if more.None? then None else Some(n + more.value)
  }

  lemma ClosingChar(c: char, rest: string, depth: int)
    requires Deeper(depth, c) != 0
    ensures Closing([c] + rest, depth) == Beyond(1, Closing(rest, Deeper(depth, c)))
  {
    assert ([c] + rest)[1..] == rest;
  }

  lemma BasicIsPlain(c: char)
    requires c in BASIC_CODES
    ensures !Opens(c) && !Closes(c) && Known(c) && c != 'a' && c != 'v'
  {
  }

  lemma BracketBalanced(open: char, inner: string, close: char, rest: string, depth: int)
    requires Opens(open) && Closes(close) && depth > 0
    requires Closing(inner + ([close] + rest), depth + 1) == Beyond(|inner|, Closing([close] + rest, depth + 1))
    ensures Closing(Bracketed(open, inner, close) + rest, depth) == Beyond(|inner| + 2, Closing(rest, depth))
  {
    assert Bracketed(open, inner, close) + rest == [open] + (inner + ([close] + rest));
    ClosingChar(open, inner + ([close] + rest), depth);
    ClosingChar(close, rest, depth + 1);
  }

  lemma BeyondTwice(a: nat, b: nat, more: Option<nat>)
    ensures Beyond(a, Beyond(b, more)) == Beyond(a + b, more)
  {
  }

  lemma PairBalanced(k: string, v: string, rest: string, s: string, depth: int, more: Option<nat>)
    requires s == (k + v) + rest
    requires Closing(k + (v + rest), depth) == Beyond(|k|, Beyond(|v|, more))
    ensures Closing(s, depth) == Beyond(|k + v|, more)
  {
    hide *;
    assert s == k + (v + rest);
    BeyondTwice(|k|, |v|, more);
  }

  lemma ArrayBalanced(e: string, rest: string, s: string, depth: int, more: Option<nat>)
    requires depth > 0 && s == (['a'] + e) + rest && Closing(e + rest, depth) == Beyond(|e|, more)
    ensures Closing(s, depth) == Beyond(1 + |e|, more)
  {
    assert s == ['a'] + (e + rest);
    ClosingChar('a', e + rest, depth);
    BeyondTwice(1, |e|, more);
  }

  lemma DictBalanced(k: string, v: string, rest: string, depth: int)
    requires depth > 0
    requires Closing(k + (v + (['}'] + rest)), depth + 1) == Beyond(|k|, Closing(v + (['}'] + rest), depth + 1))
    requires Closing(v + (['}'] + rest), depth + 1) == Beyond(|v|, Closing(['}'] + rest, depth + 1))
    ensures var sig := ['a'] + Bracketed('{', k + v, '}');
      Closing(sig + rest, depth) == Beyond(|sig|, Closing(rest, depth))
  {
    hide Closing;
    var inner, close := k + v, ['}'] + rest;
    var entry := Bracketed('{', inner, '}');
    PairBalanced(k, v, close, inner + close, depth + 1, Closing(close, depth + 1));
    BracketBalanced('{', inner, '}', rest, depth);
    ArrayBalanced(entry, rest, (['a'] + entry) + rest, depth, Closing(rest, depth));
  }

  /** A well-formed type closes every bracket it opens and no other. */
  lemma {:induction false} TypeBalanced(t: Type, rest: string, depth: int)
    requires WellFormed(t) && depth > 0
    ensures Closing(Signature(t) + rest, depth) == Beyond(|Signature(t)|, Closing(rest, depth))
    decreases t, 0
  {
    hide Closing;
    match t {
      case Basic(c) =>
        BasicIsPlain(c);
        ClosingChar(c, rest, depth);
      case Variant => ClosingChar('v', rest, depth);
      case Array(e) =>
        TypeBalanced(e, rest, depth);
        ArrayBalanced(Signature(e), rest, Signature(t) + rest, depth, Closing(rest, depth));
      case Dict(k, v) =>
        TypeBalanced(k, Signature(v) + (['}'] + rest), depth + 1);
        TypeBalanced(v, ['}'] + rest, depth + 1);
        DictBalanced(Signature(k), Signature(v), rest, depth);
      case Struct(fs) =>
        TypesBalanced(fs, [')'] + rest, depth + 1);
        BracketBalanced('(', Signatures(fs), ')', rest, depth);
    }
  }

  lemma {:induction false} TypesBalanced(ts: seq<Type>, rest: string, depth: int)
    requires (forall i :: 0 <= i < |ts| ==> WellFormed(ts[i])) && depth > 0
    ensures Closing(Signatures(ts) + rest, depth) == Beyond(|Signatures(ts)|, Closing(rest, depth))
    decreases ts, 1
  {
    hide Closing;
    if ts == [] {
      assert Signatures(ts) + rest == rest;
    } else {
      BeyondTwice(|Signature(ts[0])|, |Signatures(ts[1..])|, Closing(rest, depth));
      assert Signatures(ts) + rest == Signature(ts[0]) + (Signatures(ts[1..]) + rest);
      TypeBalanced(ts[0], Signatures(ts[1..]) + rest, depth);
      TypesBalanced(ts[1..], rest, depth);
    }
  }

  /** Up to the bracket that closes it. */
  lemma BracketClosed(open: char, inner: string, close: char, rest: string)
    requires Opens(open) && Closes(close)
    requires Closing(inner + ([close] + rest), 1) == Beyond(|inner|, Closing([close] + rest, 1))
    ensures CompleteLength(Bracketed(open, inner, close) + rest) == Some(|inner| + 2)
  {
    assert Bracketed(open, inner, close) + rest == [open] + (inner + ([close] + rest));
    ClosingChar(open, inner + ([close] + rest), 0);
  }

  lemma ArrayComplete(e: string, rest: string, s: string)
    requires s == (['a'] + e) + rest && CompleteLength(e + rest) == Some(|e|)
    ensures CompleteLength(s) == Some(1 + |e|)
  {
    assert s[1..] == e + rest;
  }

  lemma DictComplete(k: Type, v: Type, rest: string)
    requires WellFormed(Dict(k, v))
    ensures CompleteLength(Signature(Dict(k, v)) + rest) == Some(|Signature(Dict(k, v))|)
  {
    hide Closing, CompleteLength;
    TypeBalanced(k, Signature(v) + (['}'] + rest), 1);
    TypeBalanced(v, ['}'] + rest, 1);
    var inner, close := Signature(k) + Signature(v), ['}'] + rest;
    PairBalanced(Signature(k), Signature(v), close, inner + close, 1, Closing(close, 1));
    BracketClosed('{', inner, '}', rest);
    ArrayComplete(Bracketed('{', inner, '}'), rest, Signature(Dict(k, v)) + rest);
  }

  /** The complete type at the front of a signature is the type that was printed there. */
  lemma {:induction false} TypeComplete(t: Type, rest: string)
    requires WellFormed(t)
    ensures CompleteLength(Signature(t) + rest) == Some(|Signature(t)|)
  {
    if t.Basic? || t.Variant? {
      if t.Basic? { BasicIsPlain(t.code); }
    } else {
      hide Closing, CompleteLength;
      match t {
        case Array(e) =>
          TypeComplete(e, rest);
          ArrayComplete(Signature(e), rest, Signature(t) + rest);
        case Dict(k, v) => DictComplete(k, v, rest);
        case Struct(fs) =>
          TypesBalanced(fs, [')'] + rest, 1);
          BracketClosed('(', Signatures(fs), ')', rest);
      }
    }
  }

  function SignatureList(ts: seq<Type>): seq<string> {
    if ts == [] then [] else [Signature(ts[0])] + SignatureList(ts[1..])
  }

  /** Splitting the concatenation of any well-formed signatures gives back exactly those. */
  lemma {:induction false} SplitJoined(ts: seq<Type>)
    requires forall i :: 0 <= i < |ts| ==> WellFormed(ts[i])
    ensures SplitSignature(Signatures(ts)) == Some(SignatureList(ts))
  {
    if ts != [] {
      var s, rest := Signature(ts[0]), Signatures(ts[1..]);
      TypeComplete(ts[0], rest);
      assert (s + rest)[..|s|] == s && (s + rest)[|s|..] == rest;
      SplitJoined(ts[1..]);
    }
  }

  /** The first character tells the kinds of type apart. */
  lemma FirstCode(t: Type)
    requires WellFormed(t)
    ensures match t
      case Basic(c) => Signature(t)[0] == c && c in BASIC_CODES
      case Variant => Signature(t)[0] == 'v'
      case Array(_) => Signature(t)[0] == 'a'
      case Dict(_, _) => Signature(t)[0] == 'a' && |Signature(t)| > 1 && Signature(t)[1] == '{'
      case Struct(_) => Signature(t)[0] == '('
    ensures Known(Signature(t)[0]) && Signature(t)[0] != '{'
  {
    if t.Basic? { BasicIsPlain(t.code); }
  }

  /* ---- The loops of the source ---- */

  /** The text of the complete type at `start`. */
  function CompleteType(sig: string, start: nat): Option<string>
    requires start <= |sig|
  {
    var n := CompleteLength(sig[start..]);
    if n.None? then None else Some(sig[start..start + n.value])
  }

  method CompleteTypeAt(sig: string, start: nat) returns (t: Option<string>)
    requires start <= |sig|
    ensures t == CompleteType(sig, start)
    decreases |sig| - start
  {
    if start == |sig| { return None; }
    var c := sig[start];
    if c == 'a' {
      assert sig[start..][1..] == sig[start + 1..];
      var rest := CompleteTypeAt(sig, start + 1);
      if rest.None? { return None; }
      assert sig[start..start + 1 + |rest.value|] == ['a'] + rest.value;
      return Some(['a'] + rest.value);
    }
    if c == '(' || c == '{' {
      t := BracketAt(sig, start);
      return;
    }
    if !Known(c) { return None; }
    assert sig[start..start + 1] == [c];
    return Some([c]);
  }

  /** From the bracket at `start`, counting until it is closed. */
  method BracketAt(sig: string, start: nat) returns (t: Option<string>)
    requires start < |sig| && Opens(sig[start])
    ensures t == var n := Closing(sig[start..], 0); if n.None? then None else Some(sig[start..start + n.value])
  {
    var depth := 0;
    for i := start to |sig|
      invariant i > start ==> depth != 0
      invariant i == start ==> depth == 0
      invariant Closing(sig[start..], 0) == Beyond(i - start, Closing(sig[i..], depth))
    {
      assert sig[i..][1..] == sig[i + 1..];
      if sig[i] == '(' || sig[i] == '{' {
        depth := depth + 1;
      } else if sig[i] == ')' || sig[i] == '}' {
        depth := depth - 1;
      }
      if depth == 0 { return Some(sig[start..i + 1]); }
      BeyondTwice(i - start, 1, Closing(sig[i + 1..], depth));
    }
    return None;
  }

  function After(out: seq<string>, more: Option<seq<string>>): Option<seq<string>> {
    if more.None? then None else Some(out + more.value)
  }

  lemma SplitEnds(out: seq<string>, sig: string, at: nat)
    requires at <= |sig|
    ensures at == |sig| ==> After(out, SplitSignature(sig[at..])) == Some(out)
    ensures at < |sig| && CompleteType(sig, at).None? ==> After(out, SplitSignature(sig[at..])) == None
  {
    if at == |sig| { assert sig[at..] == "" && out + [] == out; }
  }

  lemma SplitOne(out: seq<string>, sig: string, at: nat)
    requires at < |sig| && CompleteType(sig, at).Some?
    ensures var t := CompleteType(sig, at).value;
      && 0 < |t| && at + |t| <= |sig|
      && After(out, SplitSignature(sig[at..])) == After(out + [t], SplitSignature(sig[at + |t|..]))
  {
    var t := CompleteType(sig, at).value;
    assert sig[at..][|t|..] == sig[at + |t|..];
    assert sig[at..][..|t|] == t;
    var rest := SplitSignature(sig[at + |t|..]);
    if rest.Some? { assert out + ([t] + rest.value) == (out + [t]) + rest.value; }
  }

  /** The types one after the other, or none if any of them is malformed. */
  method SplitTypes(sig: string) returns (ts: Option<seq<string>>)
    ensures ts == SplitSignature(sig)
  {
    hide SplitSignature, CompleteType;
    var out := [];
    var at := 0;
    assert sig[0..] == sig;
    ghost var all := SplitSignature(sig);
    if all.Some? { assert [] + all.value == all.value; }
    while at < |sig|
      invariant 0 <= at <= |sig|
      invariant all == After(out, SplitSignature(sig[at..]))
    {
      var t := CompleteTypeAt(sig, at);
      SplitEnds(out, sig, at);
      if t.None? { return None; }
      SplitOne(out, sig, at);
      out := out + [t.value];
      at := at + |t.value|;
    }
    SplitEnds(out, sig, at);
    return Some(out);
  }
}
