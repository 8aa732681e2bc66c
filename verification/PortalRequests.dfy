/**
 The requests of the file chooser portal, server/src/portal.ts: at what path a
 dialog's request is opened, and which paths can be one.
 */
module PortalRequests {
  import opened Bytes
  import opened DBusValues
  import opened DBusMessage
  import opened BusProxy

  const REQUEST_PATH := "/org/freedesktop/portal/desktop/request/"
  const HANDLE_TOKEN := "handle_token"
  const COLON: byte := 0x3a
  const DOT: byte := 0x2e
  const UNDERSCORE: byte := 0x5f
  const DASH: byte := 0x2d
  const SLASH: byte := 0x2f

  /* ---- Names of connections ---- */

  predicate NameByte(c: byte) {
    0x30 <= c <= 0x39 || 0x41 <= c <= 0x5a || 0x61 <= c <= 0x7a || c == UNDERSCORE || c == DASH
  }

  /** A unique connection name, as the D-Bus Specification has it, section "Bus names". */
  predicate UniqueName(n: DBusMessage.Text) {
    && |n| > 0 && n[0] == COLON
    && (forall i :: 1 <= i < |n| ==> NameByte(n[i]) || n[i] == DOT)
    && (exists i :: 1 <= i < |n| && n[i] == DOT)
    && (forall i :: 1 <= i < |n| && n[i] == DOT ==> 1 < i < |n| - 1 && n[i + 1] != DOT)
  }

  /** Who a request can be of: a connection the bus has named, or one that has no name yet. */
  predicate Sender(n: DBusMessage.Text) {
    n == [] || UniqueName(n)
  }

  function Underscored(s: DBusMessage.Text): (r: DBusMessage.Text)
    ensures |r| == |s| && forall i :: 0 <= i < |s| ==> r[i] == if s[i] == DOT then UNDERSCORE else s[i]
  {
    seq(|s|, i requires 0 <= i < |s| => if s[i] == DOT then UNDERSCORE else s[i])
  }

  /** A name without its colon, dots as underscores. */
  function SenderPart(n: DBusMessage.Text): DBusMessage.Text {
    Underscored(if n != [] && n[0] == COLON then n[1..] else n)
  }

  function Prefix(): DBusMessage.Text {
    TextOf(REQUEST_PATH)
  }

  function RequestPath(sender: DBusMessage.Text, token: DBusMessage.Text): DBusMessage.Text {
    Prefix() + SenderPart(sender) + ([SLASH] + token)
  }

  /** What a name can come to in a path. */
  predicate NamePart(s: DBusMessage.Text) {
    || s == []
    || ((forall i :: 0 <= i < |s| ==> NameByte(s[i])) && exists k :: 0 < k < |s| - 1 && s[k] == UNDERSCORE)
  }

  lemma PartOfName(n: DBusMessage.Text)
    requires Sender(n)
    ensures NamePart(SenderPart(n))
  {
    if n != [] {
      var s := SenderPart(n);
      forall i | 0 <= i < |s| ensures NameByte(s[i]) {
        assert NameByte(n[i + 1]) || n[i + 1] == DOT;
      }
      var d :| 1 <= d < |n| && n[d] == DOT;
      assert s[d - 1] == UNDERSCORE;
    }
  }

  /** A name that comes to `s`: one of its underscores was a dot. */
  lemma NameOfPart(s: DBusMessage.Text) returns (n: DBusMessage.Text)
    requires NamePart(s)
    ensures Sender(n) && SenderPart(n) == s
  {
    if s == [] {
      n := [];
    } else {
      var k :| 0 < k < |s| - 1 && s[k] == UNDERSCORE;
      var dotted := s[k := DOT];
      n := [COLON] + dotted;
      assert n[1..] == dotted;
      forall i | 1 <= i < |n|
        ensures NameByte(n[i]) || n[i] == DOT
        ensures n[i] == DOT ==> i == k + 1
      {
        assert NameByte(s[i - 1]);
      }
      assert n[k + 1] == DOT;
      assert UniqueName(n);
    }
  }

  /** The prefix, something a name can come to, and a token behind a slash. */
  predicate CanBeRequest(path: DBusMessage.Text) {
    var p := |Prefix()|;
    && |path| > p && path[..p] == Prefix()
    && exists k :: p <= k < |path| && path[k] == SLASH && NamePart(path[p..k])
  }

  /** A path can be tested for being some connection's request. */
  lemma RequestsAreTheirPaths(path: DBusMessage.Text)
    ensures CanBeRequest(path) <==> exists n, token :: Sender(n) && path == RequestPath(n, token)
  {
    if CanBeRequest(path) {
      var n, token := RequestAt(path);
    }
    forall n, token | Sender(n) && path == RequestPath(n, token) ensures CanBeRequest(path) {
      PathCanBe(n, token);
    }
  }

  lemma RequestAt(path: DBusMessage.Text) returns (n: DBusMessage.Text, token: DBusMessage.Text)
    requires CanBeRequest(path)
    ensures Sender(n) && path == RequestPath(n, token)
  {
    var p := |Prefix()|;
    var k :| p <= k < |path| && path[k] == SLASH && NamePart(path[p..k]);
    n := NameOfPart(path[p..k]);
    token := path[k + 1..];
    hide SenderPart, NamePart, Prefix;
    Pieces(path, p, k);
  }

  lemma Pieces(s: seq<byte>, p: nat, k: nat)
    requires p <= k < |s|
    ensures s == s[..p] + s[p..k] + ([s[k]] + s[k + 1..])
  {
  }

  lemma PathCanBe(n: DBusMessage.Text, token: DBusMessage.Text)
    requires Sender(n)
    ensures CanBeRequest(RequestPath(n, token))
  {
    hide SenderPart, NamePart, Prefix;
    PartOfName(n);
    var p, s := Prefix(), SenderPart(n);
    var path := p + s + ([SLASH] + token);
    var k := |p| + |s|;
    assert path[..|p|] == p && path[|p|..k] == s && path[k] == SLASH;
  }

  /* ---- What portals there can be ---- */

  /** Each request is at a path of the connection that opened it. */
  ghost predicate Reachable(p: Portal) {
    forall path :: path in p.requests ==>
      Sender(p.requests[path]) && exists token :: path == RequestPath(p.requests[path], token)
  }

  /** A request opened, answered or withdrawn leaves such a portal. */
  lemma OpenedReachable(p: Portal, n: DBusMessage.Text, token: DBusMessage.Text)
    requires Reachable(p) && Sender(n)
    ensures Reachable(p.(requests := p.requests[RequestPath(n, token) := n]))
    ensures forall gone: set<DBusMessage.Text> :: Reachable(p.(requests := p.requests - gone))
  {
  }

  /* ---- The call that opens one ---- */

  /** The value under a key of a dictionary, a variant's taken out of it. */
  function Option(entries: seq<Entry>, key: seq<byte>): Bytes.Option<Value> {
    if entries == [] then None
    else if entries[0].key == Text(key) then
      Some(if entries[0].value.Var? then entries[0].value.value else entries[0].value)
    else Option(entries[1..], key)
  }

  /** The token a call of the chooser gives for its request, if it gives one. */
  function Token(m: Message): Bytes.Option<DBusMessage.Text> {
    if |m.body| < 3 || !m.body[2].Map? then None
    else
      var v := Option(m.body[2].entries, TextOf(HANDLE_TOKEN));
      if v.Some? && v.value.Text? then Some(v.value.text) else None
  }

  predicate OpensDialog(m: Message) {
    && Is(m.path, PORTAL_PATH) && Is(m.iface, CHOOSER)
    && (Is(m.member, "OpenFile") || Is(m.member, "SaveFile") || Is(m.member, "SaveFiles"))
  }

  /** The portal once the request of a dialog asked for by `me` is open, there being a window to show it in. */
  function Opened(m: Message, me: DBusMessage.Text, p: Portal): Portal
    requires Token(m).Some?
  {
    p.(requests := p.requests[RequestPath(me, Token(m).value) := me])
  }

  /* ---- How they are spelt ---- */

  /** A request's path, letter for letter. */
  lemma PathSpelt(n: DBusMessage.Text, token: DBusMessage.Text)
    ensures var name := StringOf(if n != [] && n[0] == 0x3a then n[1..] else n);
      StringOf(RequestPath(n, token)) ==
      "/org/freedesktop/portal/desktop/request/"
      + seq(|name|, i requires 0 <= i < |name| => if name[i] == '.' then '_' else name[i]) + "/" + StringOf(token)
  {
    TextBack(REQUEST_PATH);
    StringSplit(Prefix() + SenderPart(n), [SLASH] + token);
    StringSplit(Prefix(), SenderPart(n));
    StringSplit([SLASH], token);
  }

  lemma StringSplit(a: seq<byte>, b: seq<byte>)
    ensures StringOf(a + b) == StringOf(a) + StringOf(b)
  {
  }

  /** The token is the string, or the variant of one, under its key in the third argument. */
  lemma TokenSpelt(m: Message, t: DBusMessage.Text)
    requires |m.body| >= 3 && m.body[2].Map? && Keyed(m.body[2].entries)
    ensures Token(m) == Some(t) <==>
      exists i :: 0 <= i < |m.body[2].entries| && IsToken(m.body[2].entries[i], t)
  {
    OptionFound(m.body[2].entries, TextOf(HANDLE_TOKEN));
    SpeltKey();
  }

  predicate IsToken(e: Entry, t: DBusMessage.Text) {
    && e.key.Text? && StringOf(e.key.text) == "handle_token"
    && (e.value == Text(t) || (e.value.Var? && e.value.value == Text(t)))
  }

  lemma SpeltKey()
    ensures forall k: seq<byte> :: StringOf(k) == "handle_token" <==> k == TextOf(HANDLE_TOKEN)
  {
    TextBack(HANDLE_TOKEN);
    forall k: seq<byte> | StringOf(k) == "handle_token" ensures k == TextOf(HANDLE_TOKEN) {
      forall i | 0 <= i < |k| ensures k[i] == TextOf(HANDLE_TOKEN)[i] {
        assert StringOf(k)[i] == HANDLE_TOKEN[i];
      }
    }
  }

  lemma {:induction false} OptionFound(entries: seq<Entry>, key: seq<byte>)
    requires Keyed(entries)
    ensures Option(entries, key).None? ==> forall i :: 0 <= i < |entries| ==> entries[i].key != Text(key)
    ensures forall i :: 0 <= i < |entries| && entries[i].key == Text(key) ==>
      Option(entries, key) == Some(if entries[i].value.Var? then entries[i].value.value else entries[i].value)
    ensures Option(entries, key).Some? ==> exists i :: 0 <= i < |entries| && entries[i].key == Text(key)
  {
    if entries != [] {
      OptionFound(entries[1..], key);
      assert forall i :: 0 <= i < |entries[1..]| ==> entries[1..][i] == entries[i + 1];
    }
  }

  /** The calls that ask for a dialog. */
  lemma DialogSpelt(m: Message)
    ensures OpensDialog(m) <==>
      && NameIn(m.path) == "/org/freedesktop/portal/desktop"
      && NameIn(m.iface) == "org.freedesktop.portal.FileChooser"
      && (NameIn(m.member) == "OpenFile" || NameIn(m.member) == "SaveFile" || NameIn(m.member) == "SaveFiles")
  {
    hide StringOf;
  }
}
