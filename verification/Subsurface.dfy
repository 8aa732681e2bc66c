/**
 How the subsurfaces of a window stack, compositor/src/wdcomp.c: a list of
 children from bottom to top, of which the first `depth` lie below the parent.
 It stands for one stack with the parent in it.
 */
module Subsurface {
  import opened Bytes

  /** A parent and its children, all named by their surfaces. */
  datatype Family = Family(parent: nat, children: seq<nat>, depth: int)

  predicate Distinct(s: seq<nat>) {
    forall i, j :: 0 <= i < j < |s| ==> s[i] != s[j]
  }

  predicate Valid(f: Family) {
    0 <= f.depth <= |f.children| && Distinct(f.children) && f.parent !in f.children
  }

  /** The one stack, bottom to top. */
  function Stack(f: Family): seq<nat>
    requires Valid(f)
  {
    f.children[..f.depth] + [f.parent] + f.children[f.depth..]
  }

  /** The place of `x`, or -1. */
  function Index(s: seq<nat>, x: nat): (i: int)
    ensures -1 <= i < |s|
    ensures i >= 0 ==> s[i] == x && x !in s[..i]
    ensures i == -1 <==> x !in s
  {
    if s == [] then -1
    else if s[0] == x then 0
    else
      var rest := Index(s[1..], x);
      assert s == [s[0]] + s[1..];
      if rest == -1 then -1 else
        assert forall k :: 0 < k <= rest ==> s[k] == s[1..][k - 1];
        rest + 1
  }

  function Removed(s: seq<nat>, i: nat): seq<nat>
    requires i < |s|
  {
    s[..i] + s[i + 1..]
  }

  function Inserted(s: seq<nat>, i: nat, x: nat): seq<nat>
    requires i <= |s|
  {
    s[..i] + [x] + s[i..]
  }

  /* ---- What the operations mean: one stack, no parent's place to keep ---- */

  /** `x` taken out of a stack. */
  function Without(s: seq<nat>, x: nat): (r: seq<nat>)
  {
    if x in s then Removed(s, Index(s, x)) else s
  }

  /** `x` put directly above or below `mark`. */
  function Beside(s: seq<nat>, mark: nat, x: nat, above: bool): seq<nat>
    requires mark in s
  {
    Inserted(s, Index(s, mark) + (if above then 1 else 0), x)
  }

  /* ---- The operations ---- */

  function Unlinked(f: Family, sub: nat): Family
    requires sub in f.children
  {
    var i := Index(f.children, sub);
    f.(children := Removed(f.children, i), depth := if i < f.depth then f.depth - 1 else f.depth)
  }

  /** A new child starts on top. */
  function Added(f: Family, sub: nat): Family {
    f.(children := f.children + [sub])
  }

  /** The first half of a restacking: whether it is refused, or means nothing. */
  datatype Request = Nothing | BadSurface | Move

  function Asked(f: Family, sub: nat, sibling: Option<nat>): Request {
    if sibling.None? || sibling.value == sub then Nothing
    else if sibling.value != f.parent && sibling.value !in f.children then BadSurface
    else Move
  }

  function Relinked(f: Family, sub: nat, sibling: nat, above: bool): Family
    requires Valid(f) && (sibling == f.parent || sibling in f.children)
  {
    if sibling == f.parent then
      f.(children := Inserted(f.children, f.depth, sub), depth := if above then f.depth else f.depth + 1)
    else
      var i := Index(f.children, sibling);
      f.(children := Inserted(f.children, if above then i + 1 else i, sub),
         depth := if i < f.depth then f.depth + 1 else f.depth)
  }

  function Restacked(f: Family, sub: nat, sibling: Option<nat>, above: bool): Family
    requires Valid(f) && sub in f.children
  {
    if Asked(f, sub, sibling) != Move then f
    else
      UnlinkKeeps(f, sub);
      Relinked(Unlinked(f, sub), sub, sibling.value, above)
  }

  /** Where a child is announced to stand; the parent's own place is 0. */
  function Z(f: Family, sub: nat): int {
    var i := Index(f.children, sub);
    if i < f.depth then i - f.depth else i - f.depth + 1
  }

  /* ---- One sequence ---- */

  lemma IndexOf(s: seq<nat>, i: nat)
    requires Distinct(s) && i < |s|
    ensures Index(s, s[i]) == i
  {
    var k := Index(s, s[i]);
    assert s[k] == s[i];
  }

  lemma StackDistinct(f: Family)
    requires Valid(f)
    ensures Distinct(Stack(f)) && |Stack(f)| == |f.children| + 1
    ensures Index(Stack(f), f.parent) == f.depth
    ensures forall x :: x in Stack(f) <==> x == f.parent || x in f.children
  {
    var s := Stack(f);
    assert forall i :: 0 <= i < |s| ==>
      s[i] == if i < f.depth then f.children[i] else if i == f.depth then f.parent else f.children[i - 1];
    IndexOf(s, f.depth);
    assert f.children == f.children[..f.depth] + f.children[f.depth..];
  }

  lemma StackIndex(f: Family, x: nat)
    requires Valid(f) && x in f.children
    ensures var i := Index(f.children, x);
      Index(Stack(f), x) == if i < f.depth then i else i + 1
  {
    hide Distinct, Index;
    StackDistinct(f);
    var i := Index(f.children, x);
    var s := Stack(f);
    var k := if i < f.depth then i else i + 1;
    assert s[k] == x;
    IndexOf(s, k);
  }

  lemma RemovedDistinct(s: seq<nat>, i: nat)
    requires Distinct(s) && i < |s|
    ensures Distinct(Removed(s, i))
    ensures forall y :: y in Removed(s, i) <==> y in s && y != s[i]
  {
    var r := Removed(s, i);
    assert forall k :: 0 <= k < |r| ==> r[k] == s[if k < i then k else k + 1];
    assert s == s[..i] + [s[i]] + s[i + 1..];
  }

  lemma RemovedStack(c: seq<nat>, p: nat, d: nat, i: nat)
    requires i < |c| && d <= |c|
    ensures var r, e := Removed(c, i), if i < d then d - 1 else d;
      r[..e] + [p] + r[e..] == Removed(c[..d] + [p] + c[d..], if i < d then i else i + 1)
  {
    var r, e := Removed(c, i), if i < d then d - 1 else d;
    if i < d {
      assert r[..e] == c[..i] + c[i + 1..d] && r[e..] == c[d..];
    } else {
      assert r[..e] == c[..d] && r[e..] == c[d..i] + c[i + 1..];
    }
  }

  /** Taking a child off the list takes it out of the stack. */
  lemma UnlinkKeeps(f: Family, sub: nat)
    requires Valid(f) && sub in f.children
    ensures Valid(Unlinked(f, sub)) && sub !in Unlinked(f, sub).children
    ensures forall x :: x in f.children && x != sub ==> x in Unlinked(f, sub).children
    ensures Stack(Unlinked(f, sub)) == Without(Stack(f), sub)
  {
    hide Distinct, Removed;
    var i := Index(f.children, sub);
    RemovedDistinct(f.children, i);
    StackIndex(f, sub);
    StackDistinct(f);
    RemovedStack(f.children, f.parent, f.depth, i);
    assert |Unlinked(f, sub).children| == |f.children| - 1 by { RemovedLength(f.children, i); }
  }

  lemma RemovedLength(s: seq<nat>, i: nat)
    requires i < |s|
    ensures |Removed(s, i)| == |s| - 1
  {
  }

  /** Putting it back beside its mark does so in the stack, whichever side of the parent that is. */
  lemma RelinkKeeps(f: Family, sub: nat, mark: nat, above: bool)
    requires Valid(f) && sub !in f.children && sub != f.parent
    requires mark == f.parent || mark in f.children
    ensures Valid(Relinked(f, sub, mark, above))
    ensures mark in Stack(f) && Stack(Relinked(f, sub, mark, above)) == Beside(Stack(f), mark, sub, above)
  {
    hide Distinct, Stack, Inserted, Index;
    StackDistinct(f);
    if mark == f.parent {
      RelinkAt(f, sub, f.depth, if above then f.depth else f.depth + 1, if above then f.depth + 1 else f.depth);
    } else {
      StackIndex(f, mark);
      var i := Index(f.children, mark);
      var at := if above then i + 1 else i;
      RelinkAt(f, sub, at, if i < f.depth then f.depth + 1 else f.depth, if i < f.depth then at else at + 1);
    }
  }

  lemma RelinkAt(f: Family, sub: nat, at: nat, depth: int, to: nat)
    requires Valid(f) && sub !in f.children && sub != f.parent && at <= |f.children|
    requires (depth == f.depth + 1 && at <= f.depth && to == at) || (depth == f.depth && at >= f.depth && to == at + 1)
    ensures var r := f.(children := Inserted(f.children, at, sub), depth := depth);
      && Valid(r) && to <= |Stack(f)| && Stack(r) == Inserted(Stack(f), to, sub)
  {
    hide Distinct, Stack, Inserted;
    InsertDistinct(f.children, at, sub);
    InsertPlaces(f.children, at, sub);
    InsertedStack(f, at, sub, depth, to);
  }

  lemma InsertDistinct(s: seq<nat>, at: nat, x: nat)
    requires Distinct(s) && x !in s && at <= |s|
    ensures Distinct(Inserted(s, at, x))
    ensures forall y :: y in Inserted(s, at, x) <==> y == x || y in s
  {
    var r := Inserted(s, at, x);
    InsertedAt(s, at, x);
    assert s == s[..at] + s[at..];
    hide Inserted;
  }

  lemma InsertedAt(s: seq<nat>, at: nat, x: nat)
    requires at <= |s|
    ensures var r := Inserted(s, at, x);
      && |r| == |s| + 1
      && forall k :: 0 <= k < |r| ==> r[k] == if k < at then s[k] else if k == at then x else s[k - 1]
  {
  }

  /** A child inserted in the list, below the parent if the depth grows, is inserted in the stack. */
  lemma InsertedStack(f: Family, at: nat, x: nat, depth: int, to: nat)
    requires Valid(f) && at <= |f.children|
    requires Valid(f.(children := Inserted(f.children, at, x), depth := depth))
    requires (depth == f.depth + 1 && at <= f.depth && to == at) || (depth == f.depth && at >= f.depth && to == at + 1)
    ensures to <= |Stack(f)|
    ensures Stack(f.(children := Inserted(f.children, at, x), depth := depth)) == Inserted(Stack(f), to, x)
  {
    if to == at {
      InsertedBelow(f.children, f.parent, f.depth, at, x);
    } else {
      InsertedAbove(f.children, f.parent, f.depth, at, x);
    }
  }

  lemma InsertedBelow(c: seq<nat>, p: nat, d: nat, at: nat, x: nat)
    requires at <= d <= |c|
    ensures var r := Inserted(c, at, x);
      r[..d + 1] + [p] + r[d + 1..] == Inserted(c[..d] + [p] + c[d..], at, x)
  {
    var r, s := Inserted(c, at, x), c[..d] + [p] + c[d..];
    assert r[..d + 1] == c[..at] + [x] + c[at..d] && r[d + 1..] == c[d..];
    assert s[..at] == c[..at] && s[at..] == c[at..d] + [p] + c[d..];
  }

  lemma InsertedAbove(c: seq<nat>, p: nat, d: nat, at: nat, x: nat)
    requires d <= at <= |c|
    ensures var r := Inserted(c, at, x);
      r[..d] + [p] + r[d..] == Inserted(c[..d] + [p] + c[d..], at + 1, x)
  {
    var r, s := Inserted(c, at, x), c[..d] + [p] + c[d..];
    assert r[..d] == c[..d] && r[d..] == c[d..at] + [x] + c[at..];
    assert s[..at + 1] == c[..d] + [p] + c[d..at] && s[at + 1..] == c[at..];
  }

  /**
   `place_above` and `place_below` on the list with its depth are, on the one
   stack, taking the child out and putting it directly above or below its mark.
   */
  lemma RestackIsMove(f: Family, sub: nat, sibling: Option<nat>, above: bool)
    requires Valid(f) && sub in f.children
    ensures Valid(Restacked(f, sub, sibling, above))
    ensures Asked(f, sub, sibling) == Move ==>
      && sibling.value in Without(Stack(f), sub)
      && Stack(Restacked(f, sub, sibling, above)) == Beside(Without(Stack(f), sub), sibling.value, sub, above)
    ensures Asked(f, sub, sibling) != Move ==> Restacked(f, sub, sibling, above) == f
    ensures Asked(f, sub, sibling) == BadSurface <==> sibling.Some? && sibling.value !in Stack(f)
    ensures Asked(f, sub, sibling) == Move <==>
      sibling.Some? && sibling.value in Stack(f) && sibling.value != sub
  {
    StackDistinct(f);
    if Asked(f, sub, sibling) == Move {
      UnlinkKeeps(f, sub);
      RelinkKeeps(Unlinked(f, sub), sub, sibling.value, above);
    }
  }

  /** Of any two others, the one below stays below. */
  predicate SameOrder(s: seq<nat>, t: seq<nat>, x: nat) {
    Without(s, x) == Without(t, x)
  }

  /** After a move the child is next to its mark on the side asked, and the others stand as they stood. */
  lemma MovedBeside(f: Family, sub: nat, mark: nat, above: bool)
    requires Valid(f) && sub in f.children && Asked(f, sub, Some(mark)) == Move
    ensures Valid(Restacked(f, sub, Some(mark), above))
    ensures var s := Stack(Restacked(f, sub, Some(mark), above));
      && Index(s, sub) == Index(s, mark) + (if above then 1 else -1)
      && SameOrder(s, Stack(f), sub)
  {
    hide Stack, Restacked, Index, Distinct, Without, Beside, Removed;
    RestackIsMove(f, sub, Some(mark), above);
    UnlinkKeeps(f, sub);
    var u := Unlinked(f, sub);
    StackDistinct(u);
    BesidePlaces(Stack(u), mark, sub, above);
  }

  lemma InsertPlaces(s: seq<nat>, at: nat, x: nat)
    requires at <= |s|
    ensures var r := Inserted(s, at, x);
      && |r| == |s| + 1 && r[at] == x && Removed(r, at) == s
      && (at > 0 ==> r[at - 1] == s[at - 1]) && (at < |s| ==> r[at + 1] == s[at])
  {
  }

  lemma BesidePlaces(s: seq<nat>, mark: nat, x: nat, above: bool)
    requires Distinct(s) && mark in s && x !in s
    ensures var r := Beside(s, mark, x, above);
      && Index(r, x) == Index(r, mark) + (if above then 1 else -1)
      && Without(r, x) == s
  {
    var at := Index(s, mark) + (if above then 1 else 0);
    InsertDistinct(s, at, x);
    InsertPlaces(s, at, x);
    hide Distinct, Index, Removed, Inserted;
    var r := Inserted(s, at, x);
    IndexOf(r, at);
    IndexOf(r, if above then at - 1 else at + 1);
  }

  /* ---- What is announced ---- */

  /** The number announced is how far above the parent a child stands in the stack. */
  lemma ZIsDistance(f: Family, sub: nat)
    requires Valid(f) && sub in f.children
    ensures Z(f, sub) == Index(Stack(f), sub) - Index(Stack(f), f.parent)
    ensures Z(f, sub) != 0
  {
    StackDistinct(f);
    StackIndex(f, sub);
  }

  /** Along the list the numbers rise, by one, but for the step over the parent's own. */
  lemma ZRises(f: Family, i: nat, j: nat)
    requires Valid(f) && i < j < |f.children|
    ensures Z(f, f.children[i]) < Z(f, f.children[j])
    ensures j == i + 1 ==> Z(f, f.children[j]) == Z(f, f.children[i]) + (if j == f.depth then 2 else 1)
  {
    IndexOf(f.children, i);
    IndexOf(f.children, j);
  }

  /* ---- The compositor's own list ---- */

  datatype Placement = Placement(id: nat, z: int)

  /** The placements of those of `ids` the shell has heard of, in order. */
  function Placements(f: Family, ids: seq<nat>, announced: set<nat>): seq<Placement> {
    if ids == [] then []
    else
      var last := ids[|ids| - 1];
      Placements(f, ids[..|ids| - 1], announced)
      + (if last in announced then [Placement(last, Z(f, last))] else [])
  }

  /** A placement of one of the first `n` children that the shell has heard of. */
  predicate PlacedAmong(p: Placement, f: Family, n: nat, announced: set<nat>)
    requires n <= |f.children|
  {
    p.id in announced && p.z == Z(f, p.id) && exists k :: 0 <= k < n && f.children[k] == p.id
  }

  lemma PlacementsNext(f: Family, n: nat, announced: set<nat>)
    requires n < |f.children|
    ensures var last := f.children[n];
      Placements(f, f.children[..n + 1], announced) ==
      Placements(f, f.children[..n], announced) + (if last in announced then [Placement(last, Z(f, last))] else [])
  {
    assert f.children[..n + 1][..n] == f.children[..n];
  }

  lemma PlacementsNone(f: Family, announced: set<nat>)
    ensures Placements(f, [], announced) == []
  {
  }

  /** What the shell is told rises: each child it hears of stands above those before it. */
  lemma {:induction false} PlacementsRise(f: Family, n: nat, announced: set<nat>)
    requires Valid(f) && n <= |f.children|
    ensures var ps := Placements(f, f.children[..n], announced);
      && (forall i, j :: 0 <= i < j < |ps| ==> ps[i].z < ps[j].z)
      && (forall i :: 0 <= i < |ps| ==> PlacedAmong(ps[i], f, n, announced))
    decreases n
  {
    hide Z, Distinct, Placements;
    PlacementsNone(f, announced);
    if n == 0 {
      assert f.children[..0] == [];
    } else {
      var last := f.children[n - 1];
      PlacementsNext(f, n - 1, announced);
      PlacementsRise(f, n - 1, announced);
      var ps := Placements(f, f.children[..n - 1], announced);
      forall i | 0 <= i < |ps| ensures ps[i].z < Z(f, last) && PlacedAmong(ps[i], f, n, announced) {
        assert PlacedAmong(ps[i], f, n - 1, announced);
        var k :| 0 <= k < n - 1 && f.children[k] == ps[i].id;
        ZRises(f, k, n - 1);
      }
      if last in announced {
        assert PlacedAmong(Placement(last, Z(f, last)), f, n, announced);
      }
    }
  }

  /** And every child it has heard of is among what it is told. */
  lemma {:induction false} PlacementsAll(f: Family, n: nat, announced: set<nat>, k: nat)
    requires k < n <= |f.children| && f.children[k] in announced
    ensures Placement(f.children[k], Z(f, f.children[k])) in Placements(f, f.children[..n], announced)
    decreases n
  {
    hide Z;
    PlacementsNext(f, n - 1, announced);
    if k < n - 1 { PlacementsAll(f, n - 1, announced, k); }
  }

  class Parent {
    const id: nat
    var children: seq<nat>
    var depth: int
    /** The children the shell has heard of. */
    var announced: set<nat>

    function Shown(): Family
      reads this
    {
      Family(id, children, depth)
    }

    constructor (id: nat)
      ensures Shown() == Family(id, [], 0) && Valid(Shown()) && announced == {}
    {
      this.id := id;
      children, depth, announced := [], 0, {};
    }

    method IndexOfChild(sub: nat) returns (i: int)
      ensures i == Index(children, sub)
    {
      i := 0;
      assert children[0..] == children;
      while i < |children|
        invariant 0 <= i <= |children|
        invariant Index(children, sub) ==
          if Index(children[i..], sub) == -1 then -1 else i + Index(children[i..], sub)
      {
        if children[i] == sub { return; }
        assert children[i..][1..] == children[i + 1..];
        i := i + 1;
      }
      i := -1;
    }

    method PlacementZ(sub: nat) returns (z: int)
      ensures z == Z(Shown(), sub)
    {
      var i := IndexOfChild(sub);
      z := if i < depth then i - depth else i - depth + 1;
    }

    method Add(sub: nat)
      requires Valid(Shown()) && sub !in children && sub != id
      modifies `children
      ensures Shown() == Added(old(Shown()), sub) && Valid(Shown())
      ensures Stack(Shown()) == old(Stack(Shown())) + [sub]
    {
      children := children + [sub];
      assert children[depth..] == old(children)[depth..] + [sub];
    }

    /** The first a shell hears of a child is where it stands. */
    method AnnounceChild(sub: nat) returns (sent: seq<Placement>)
      modifies `announced
      ensures announced == old(announced) + {sub}
      ensures sent == if sub in old(announced) then [] else [Placement(sub, Z(Shown(), sub))]
    {
      if sub in announced { return []; }
      announced := announced + {sub};
      var z := PlacementZ(sub);
      sent := [Placement(sub, z)];
    }

    method Unlink(sub: nat)
      requires Valid(Shown()) && sub in children
      modifies `children, `depth
      ensures Shown() == Unlinked(old(Shown()), sub) && Valid(Shown())
    {
      hide Distinct, Index, Stack;
      UnlinkKeeps(Shown(), sub);
      var i := IndexOfChild(sub);
      if i < depth { depth := depth - 1; }
      children := children[..i] + children[i + 1..];
    }

    /** After a move, the place of every child the shell has heard of, bottom to top. */
    method Announce() returns (sent: seq<Placement>)
      ensures sent == Placements(Shown(), children, announced)
    {
      hide Z, Index;
      sent := [];
      var n := 0;
      while n < |children|
        invariant 0 <= n <= |children|
        invariant sent == Placements(Shown(), children[..n], announced)
      {
        if children[n] in announced {
          var z := PlacementZ(children[n]);
          sent := sent + [Placement(children[n], z)];
        }
        assert children[..n + 1][..n] == children[..n];
        n := n + 1;
      }
      assert children[..n] == children;
    }

    /** Back into the list, with the depth that puts the child right beside its mark in the stack. */
    method Relink(sub: nat, mark: nat, above: bool)
      requires Valid(Shown()) && (mark == id || mark in children)
      modifies `children, `depth
      ensures Shown() == Relinked(old(Shown()), sub, mark, above)
    {
      hide Index, Distinct;
      if mark == id {
        var i := 0;
        while i < |children| && i < depth
          invariant 0 <= i <= depth
        {
          i := i + 1;
        }
        children := children[..i] + [sub] + children[i..];
        if !above { depth := depth + 1; }
      } else {
        var i := IndexOfChild(mark);
        var under := i < depth;
        var at := if above then i + 1 else i;
        children := children[..at] + [sub] + children[at..];
        if under { depth := depth + 1; }
      }
    }

    method Restack(sub: nat, sibling: Option<nat>, above: bool) returns (error: bool, sent: seq<Placement>)
      requires Valid(Shown()) && sub in children
      modifies `children, `depth
      ensures Shown() == Restacked(old(Shown()), sub, sibling, above) && Valid(Shown())
      ensures error <==> sibling.Some? && sibling.value !in old(Stack(Shown()))
      ensures sent == if Asked(old(Shown()), sub, sibling) == Move then Placements(Shown(), children, announced) else []
    {
      hide Index, Distinct, Relinked, Unlinked;
      RestackIsMove(Shown(), sub, sibling, above);
      error, sent := false, [];
      if sibling.None? || sibling.value == sub { return; }
      if sibling.value != id && sibling.value !in children { return true, []; }
      UnlinkKeeps(Shown(), sub);
      Unlink(sub);
      Relink(sub, sibling.value, above);
      sent := Announce();
    }
  }
}
