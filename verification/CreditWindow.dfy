/**
 How confirmations move the credit window of server/src/session.ts: the pieces
 they settle, oldest first, each by the time it was under way.
 */
module CreditWindow {
  import opened Bytes
  import opened SliceWire
  import opened SessionSteps

  /** How many of the oldest pieces `n` confirmed bytes reach. */
  function Reached(u: seq<Unconfirmed>, n: int): (k: nat)
    ensures k <= |u|
  {
    if n <= 0 || u == [] then 0 else 1 + Reached(u[1..], n - u[0].bytes)
  }

  /** Those before which fewer than `n` bytes are unconfirmed. */
  lemma {:induction false} ReachedAre(u: seq<Unconfirmed>, n: int)
    requires n > 0
    ensures forall i :: 0 <= i < Reached(u, n) ==> Total(u[..i]) < n
    ensures forall i :: Reached(u, n) <= i < |u| ==> Total(u[..i]) >= n
  {
    if u != [] {
      var k, left := Reached(u, n), n - u[0].bytes;
      if left > 0 { ReachedAre(u[1..], left); }
      forall i | 0 <= i < |u| ensures Total(u[..i]) < n <==> i < k {
        if i > 0 { assert u[..i][1..] == u[1..][..i - 1]; }
      }
    }
  }

  /** One piece that was `age` milliseconds under way, against a window of `w`. */
  predicate Moves(w: int, age: int, v: int) {
    && (age > 500 ==> v == Max(16384, w / 2))
    && (age < 200 ==> v == Min(524288, w + 16384))
    && (200 <= age <= 500 ==> v == w)
  }

  /** `ws` are the windows from one piece to the next. */
  predicate Follows(ws: seq<nat>, u: seq<Unconfirmed>, n: int, now: int) {
    && |ws| == Reached(u, n) + 1
    && forall i :: 0 <= i < Reached(u, n) ==> Moves(ws[i], now - u[i].at, ws[i + 1])
  }

  lemma {:induction false} SettleFollows(u: seq<Unconfirmed>, n: int, w: nat, now: int) returns (ws: seq<nat>)
    requires CREDIT_WINDOW_MIN <= w <= CREDIT_WINDOW_MAX
    ensures Follows(ws, u, n, now) && ws[0] == w && ws[|ws| - 1] == Settle(u, n, w, now).1
  {
    if n <= 0 || u == [] {
      ws := [w];
    } else {
      var v := Adjusted(w, now - u[0].at);
      var rest := SettleFollows(u[1..], n - u[0].bytes, v, now);
      ws := [w] + rest;
    }
  }

  lemma PumpKeepsWindow(s: State, now: int)
    requires Sound(s)
    ensures var t := Pump(s, now);
      t.window == s.window && t.credited == s.credited && s.unconfirmed <= t.unconfirmed
  {
  }

  /**
   Every confirmation moves the window once for each piece it reaches, oldest
   first: halved for one that took more than half a second, 16 KiB wider for
   one that took less than a fifth, between 16 and 512 KiB. Nothing else does.
   */
  lemma TookFollows(s: State, n: int, now: int) returns (ws: seq<nat>)
    requires Sound(s) && n > 0
    ensures Follows(ws, s.unconfirmed, n, now) && ws[0] == s.window && ws[|ws| - 1] == Took(s, n, now).window
    ensures Took(s, n, now).credited
  {
    ws := SettleFollows(s.unconfirmed, n, s.window, now);
    var r := Settle(s.unconfirmed, n, s.window, now);
    PumpKeepsWindow(s.(credited := true, unconfirmed := r.0, window := r.1), now);
  }

  /** `w` halved `k` times, rounded down each time. */
  function Halved(w: nat, k: nat): (h: nat)
    ensures h <= w
  {
    if k == 0 then w else Halved(w, k - 1) / 2
  }

  predicate AllSlow(u: seq<Unconfirmed>, n: int, now: int) {
    forall i :: 0 <= i < Reached(u, n) ==> now - u[i].at > 500
  }

  predicate AllQuick(u: seq<Unconfirmed>, n: int, now: int) {
    forall i :: 0 <= i < Reached(u, n) ==> now - u[i].at < 200
  }

  predicate AllBetween(u: seq<Unconfirmed>, n: int, now: int) {
    forall i :: 0 <= i < Reached(u, n) ==> 200 <= now - u[i].at <= 500
  }

  lemma {:induction false} FollowsSlow(ws: seq<nat>, u: seq<Unconfirmed>, n: int, now: int, i: nat)
    requires Follows(ws, u, n, now) && AllSlow(u, n, now) && i < |ws| && ws[0] >= 16384
    ensures ws[i] == Max(16384, Halved(ws[0], i))
  {
    if i > 0 {
      FollowsSlow(ws, u, n, now, i - 1);
      assert Moves(ws[i - 1], now - u[i - 1].at, ws[i]);
    }
  }

  lemma {:induction false} FollowsQuick(ws: seq<nat>, u: seq<Unconfirmed>, n: int, now: int, i: nat)
    requires Follows(ws, u, n, now) && AllQuick(u, n, now) && i < |ws| && ws[0] <= 524288
    ensures ws[i] == Min(524288, ws[0] + 16384 * i)
  {
    if i > 0 {
      FollowsQuick(ws, u, n, now, i - 1);
      assert Moves(ws[i - 1], now - u[i - 1].at, ws[i]);
    }
  }

  lemma {:induction false} FollowsBetween(ws: seq<nat>, u: seq<Unconfirmed>, n: int, now: int, i: nat)
    requires Follows(ws, u, n, now) && AllBetween(u, n, now) && i < |ws|
    ensures ws[i] == ws[0]
  {
    if i > 0 {
      FollowsBetween(ws, u, n, now, i - 1);
      assert Moves(ws[i - 1], now - u[i - 1].at, ws[i]);
    }
  }

  /** On a slow link the window is halved for each piece, down to 16 KiB; it never rises. */
  lemma SlowShrinks(s: State, n: int, now: int)
    requires Sound(s) && n > 0 && AllSlow(s.unconfirmed, n, now)
    ensures Took(s, n, now).window == Max(16384, Halved(s.window, Reached(s.unconfirmed, n))) <= s.window
  {
    var ws := TookFollows(s, n, now);
    FollowsSlow(ws, s.unconfirmed, n, now, |ws| - 1);
  }

  /** On a fast one it grows by 16 KiB for each piece, up to 512; it never falls. */
  lemma QuickGrows(s: State, n: int, now: int)
    requires Sound(s) && n > 0 && AllQuick(s.unconfirmed, n, now)
    ensures Took(s, n, now).window == Min(524288, s.window + 16384 * Reached(s.unconfirmed, n)) >= s.window
  {
    var ws := TookFollows(s, n, now);
    FollowsQuick(ws, s.unconfirmed, n, now, |ws| - 1);
  }

  lemma BetweenStays(s: State, n: int, now: int)
    requires Sound(s) && n > 0 && AllBetween(s.unconfirmed, n, now)
    ensures Took(s, n, now).window == s.window
  {
    var ws := TookFollows(s, n, now);
    FollowsBetween(ws, s.unconfirmed, n, now, |ws| - 1);
  }

  /** What confirmed bytes leave of the books: the newest pieces, the oldest of them perhaps in part. */
  ghost predicate Newest(v: seq<Unconfirmed>, u: seq<Unconfirmed>, n: nat) {
    if n >= Total(u) then forall i :: 0 <= i < |v| ==> v[i].bytes == 0
    else
      && 0 < |v| <= |u| && v[1..] == u[|u| - |v| + 1..]
      && v[0].at == u[|u| - |v|].at
      && Total(u[..|u| - |v|]) <= n && v[0].bytes == Total(u[..|u| - |v| + 1]) - n
  }

  lemma {:induction false} SettleNewest(u: seq<Unconfirmed>, n: nat, w: nat, now: int)
    requires CREDIT_WINDOW_MIN <= w <= CREDIT_WINDOW_MAX
    ensures Newest(Settle(u, n, w, now).0, u, n)
  {
    if n == 0 || u == [] {
      NoneSettled(u, n);
    } else if u[0].bytes <= n {
      var v, left := Adjusted(w, now - u[0].at), n - u[0].bytes;
      SettleNewest(u[1..], left, v, now);
      var r := Settle(u[1..], left, v, now).0;
      if n < Total(u) {
        var j := |u| - |r|;
        assert u[..j][1..] == u[1..][..j - 1] && u[..j + 1][1..] == u[1..][..j];
      }
    } else {
      assert u[..1] == [u[0]] && [u[0]][1..] == [] && Total(u[..1]) == u[0].bytes;
      assert u[..0] == [];
    }
  }

  lemma NoneSettled(u: seq<Unconfirmed>, n: nat)
    requires n == 0 || u == []
    ensures Newest(u, u, n)
  {
    if u != [] {
      assert u[..0] == [] && u[..1] == [u[0]] && [u[0]][1..] == [];
      if Total(u) == 0 { NothingIn(u); }
    }
  }

  lemma {:induction false} NothingIn(u: seq<Unconfirmed>)
    requires Total(u) == 0
    ensures forall i :: 0 <= i < |u| ==> u[i].bytes == 0
  {
    if u != [] {
      NothingIn(u[1..]);
      forall i | 0 < i < |u| ensures u[i].bytes == 0 { assert u[i] == u[1..][i - 1]; }
    }
  }

  /** The books after a confirmation: the newest of what was there, then what the pump adds. */
  lemma TookNewest(s: State, n: nat, now: int) returns (left: seq<Unconfirmed>)
    requires Sound(s) && n > 0
    ensures Newest(left, s.unconfirmed, n) && left <= Took(s, n, now).unconfirmed
  {
    SettleNewest(s.unconfirmed, n, s.window, now);
    var r := Settle(s.unconfirmed, n, s.window, now);
    left := r.0;
    PumpKeepsWindow(s.(credited := true, unconfirmed := r.0, window := r.1), now);
  }
}
