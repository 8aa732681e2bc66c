/**
 Placing a popup inside its parent, compositor/src/wdcomp.c: anchored to a
 rectangle, extending where its gravity points, flipped if it would stick out
 and may be, and slid back inside if nothing else helps.
 */
module Popup {
  import opened Bytes

  datatype Rect = Rect(x: int, y: int, width: int, height: int)

  datatype Positioner = Positioner(
    width: int, height: int,
    anchorRect: Rect, anchor: nat, gravity: nat,
    offsetX: int, offsetY: int,
    flipXAllowed: bool, flipYAllowed: bool)

  const TOP := 1
  const BOTTOM := 2
  const LEFT := 3
  const RIGHT := 4
  const TOP_LEFT := 5
  const BOTTOM_LEFT := 6
  const TOP_RIGHT := 7
  const BOTTOM_RIGHT := 8

  /** The division of C, which drops the fraction whichever the sign. */
  function Half(n: int): int {
    if n >= 0 then n / 2 else -(-n / 2)
  }

  /* ---- The source's helpers, one switch each ---- */

  method AnchorPoint(anchor: nat, r: Rect) returns (x: int, y: int)
    ensures x == Anchored(AxisX(anchor), r.x, r.width)
    ensures y == Anchored(AxisY(anchor), r.y, r.height)
  {
    x, y := r.x + Half(r.width), r.y + Half(r.height);
    match anchor {
      case 1 => y := r.y;
      case 2 => y := r.y + r.height;
      case 3 => x := r.x;
      case 4 => x := r.x + r.width;
      case 5 => x, y := r.x, r.y;
      case 6 => x, y := r.x, r.y + r.height;
      case 7 => x, y := r.x + r.width, r.y;
      case 8 => x, y := r.x + r.width, r.y + r.height;
      case _ =>
    }
  }

  method GravityOffset(gravity: nat, w: int, h: int) returns (dx: int, dy: int)
    ensures dx == Extended(AxisX(gravity), w)
    ensures dy == Extended(AxisY(gravity), h)
  {
    dx, dy := Half(-w), Half(-h);
    match gravity {
      case 1 => dy := -h;
      case 2 => dy := 0;
      case 3 => dx := -w;
      case 4 => dx := 0;
      case 5 => dx, dy := -w, -h;
      case 6 => dx, dy := -w, 0;
      case 7 => dx, dy := 0, -h;
      case 8 => dx, dy := 0, 0;
      case _ =>
    }
  }

  function FlipX(v: nat): nat {
    match v
    case 3 => RIGHT
    case 4 => LEFT
    case 5 => TOP_RIGHT
    case 7 => TOP_LEFT
    case 6 => BOTTOM_RIGHT
    case 8 => BOTTOM_LEFT
    case _ => v
  }

  function FlipY(v: nat): nat {
    match v
    case 1 => BOTTOM
    case 2 => TOP
    case 5 => BOTTOM_LEFT
    case 6 => TOP_LEFT
    case 7 => BOTTOM_RIGHT
    case 8 => TOP_RIGHT
    case _ => v
  }

  /* ---- One axis at a time ---- */

  /** Where on an axis something points: to the lower end, the upper end, or neither. */
  datatype Side = Low | Middle | High

  function AxisX(v: nat): Side {
    if v in {LEFT, TOP_LEFT, BOTTOM_LEFT} then Low
    else if v in {RIGHT, TOP_RIGHT, BOTTOM_RIGHT} then High
    else Middle
  }

  function AxisY(v: nat): Side {
    if v in {TOP, TOP_LEFT, TOP_RIGHT} then Low
    else if v in {BOTTOM, BOTTOM_LEFT, BOTTOM_RIGHT} then High
    else Middle
  }

  function Opposite(s: Side): Side {
    match s
    case Low => High
    case High => Low
    case Middle => Middle
  }

  function Anchored(s: Side, at: int, extent: int): int {
    match s
    case Low => at
    case High => at + extent
    case Middle => at + Half(extent)
  }

  function Extended(s: Side, size: int): int {
    match s
    case Low => -size
    case High => 0
    case Middle => Half(-size)
  }

  function Placed(anchor: Side, gravity: Side, at: int, extent: int, size: int, offset: int): int {
    Anchored(anchor, at, extent) + Extended(gravity, size) + offset
  }

  predicate Fits(x: int, size: int, bound: int) {
    0 <= x && x + size <= bound
  }

  function Slid(x: int, size: int, bound: int): int {
    Max(0, Min(x, bound - size))
  }

  function Size(asked: int, bound: int): int {
    Min(Max(1, asked), bound)
  }

  /** Where a popup goes on one axis. */
  function Settled(plain: int, flipped: int, allowed: bool, size: int, bound: int): int {
    if Fits(plain, size, bound) then plain
    else if allowed && Fits(flipped, size, bound) then flipped
    else Slid(plain, size, bound)
  }

  function PlainX(p: Positioner, w: int): int {
    Placed(AxisX(p.anchor), AxisX(p.gravity), p.anchorRect.x, p.anchorRect.width, w, p.offsetX)
  }

  function FlippedX(p: Positioner, w: int): int {
    Placed(Opposite(AxisX(p.anchor)), Opposite(AxisX(p.gravity)), p.anchorRect.x, p.anchorRect.width, w, p.offsetX)
  }

  function PlainY(p: Positioner, h: int): int {
    Placed(AxisY(p.anchor), AxisY(p.gravity), p.anchorRect.y, p.anchorRect.height, h, p.offsetY)
  }

  function FlippedY(p: Positioner, h: int): int {
    Placed(Opposite(AxisY(p.anchor)), Opposite(AxisY(p.gravity)), p.anchorRect.y, p.anchorRect.height, h, p.offsetY)
  }

  /** The two axes do not see each other, though the source computes them together. */
  function Place(p: Positioner, parent: Rect): Rect {
    var w, h := Size(p.width, parent.width), Size(p.height, parent.height);
    Rect(Settled(PlainX(p, w), FlippedX(p, w), p.flipXAllowed, w, parent.width),
         Settled(PlainY(p, h), FlippedY(p, h), p.flipYAllowed, h, parent.height),
         w, h)
  }

  /** Flipping twice is not flipping; a flip turns its own axis round and leaves the other alone. */
  lemma FlipsAreInvolutions(v: nat)
    ensures FlipX(FlipX(v)) == v && FlipY(FlipY(v)) == v
    ensures FlipX(FlipY(v)) == FlipY(FlipX(v))
    ensures AxisX(FlipX(v)) == Opposite(AxisX(v)) && AxisY(FlipX(v)) == AxisY(v)
    ensures AxisY(FlipY(v)) == Opposite(AxisY(v)) && AxisX(FlipY(v)) == AxisX(v)
  {
    if v <= BOTTOM_RIGHT {
      assert v in {0, 1, 2, 3, 4, 5, 6, 7, 8};
    }
  }

  method PlaceWith(p: Positioner, anchor: nat, gravity: nat, w: int, h: int) returns (x: int, y: int)
    ensures x == Placed(AxisX(anchor), AxisX(gravity), p.anchorRect.x, p.anchorRect.width, w, p.offsetX)
    ensures y == Placed(AxisY(anchor), AxisY(gravity), p.anchorRect.y, p.anchorRect.height, h, p.offsetY)
  {
    var ax, ay := AnchorPoint(anchor, p.anchorRect);
    var dx, dy := GravityOffset(gravity, w, h);
    x := ax + dx + p.offsetX;
    y := ay + dy + p.offsetY;
  }

  /** The two halves of an axis: flipped if that helps, then slid. */
  lemma FlippedThenSlid(plain: int, flipped: int, allowed: bool, size: int, bound: int)
    ensures var x := FlippedIfOut(plain, flipped, allowed, size, bound);
      Settled(plain, flipped, allowed, size, bound) == Max(0, if x + size > bound then bound - size else x)
  {
  }

  function FlippedIfOut(plain: int, flipped: int, allowed: bool, size: int, bound: int): int {
    if allowed && !Fits(plain, size, bound) && Fits(flipped, size, bound) then flipped else plain
  }

  /** Each axis is flipped alone, and only to where it then fits. */
  method FlipIfOut(p: Positioner, w: int, h: int, parent: Rect, x0: int, y0: int) returns (x: int, y: int)
    requires x0 == PlainX(p, w) && y0 == PlainY(p, h)
    ensures x == FlippedIfOut(x0, FlippedX(p, w), p.flipXAllowed, w, parent.width)
    ensures y == FlippedIfOut(y0, FlippedY(p, h), p.flipYAllowed, h, parent.height)
  {
    x, y := x0, y0;
    FlipsAreInvolutions(p.anchor);
    FlipsAreInvolutions(p.gravity);
    hide Placed, AxisX, AxisY, FlipX, FlipY;
    if p.flipXAllowed && (x < 0 || x + w > parent.width) {
      var fx, _ := PlaceWith(p, FlipX(p.anchor), FlipX(p.gravity), w, h);
      if fx >= 0 && fx + w <= parent.width { x := fx; }
    }
    if p.flipYAllowed && (y < 0 || y + h > parent.height) {
      var _, fy := PlaceWith(p, FlipY(p.anchor), FlipY(p.gravity), w, h);
      if fy >= 0 && fy + h <= parent.height { y := fy; }
    }
  }

  method PopupPlace(p: Positioner, parent: Rect) returns (r: Rect)
    ensures r == Place(p, parent)
  {
    hide Placed, Settled, FlippedIfOut, FlippedX, FlippedY;
    var w := if p.width > 0 then p.width else 1;
    var h := if p.height > 0 then p.height else 1;
    if w > parent.width { w := parent.width; }
    if h > parent.height { h := parent.height; }
    assert w == Size(p.width, parent.width) && h == Size(p.height, parent.height);
    var x, y := PlaceWith(p, p.anchor, p.gravity, w, h);
    FlippedThenSlid(x, FlippedX(p, w), p.flipXAllowed, w, parent.width);
    FlippedThenSlid(y, FlippedY(p, h), p.flipYAllowed, h, parent.height);
    x, y := FlipIfOut(p, w, h, parent, x, y);
    if x + w > parent.width { x := parent.width - w; }
    if y + h > parent.height { y := parent.height - h; }
    if x < 0 { x := 0; }
    if y < 0 { y := 0; }
    return Rect(x, y, w, h);
  }

  /* ---- What a placement promises ---- */

  predicate Inside(r: Rect, parent: Rect) {
    && r.width >= 0 && r.height >= 0
    && Fits(r.x, r.width, parent.width) && Fits(r.y, r.height, parent.height)
  }

  /** A popup lies inside its parent exactly when there is a parent to lie in. */
  lemma PlacedInside(p: Positioner, parent: Rect)
    ensures Inside(Place(p, parent), parent) <==> parent.width >= 0 && parent.height >= 0
  {
    hide Placed;
  }

  /**
   Where a popup is asked to be, on one axis: `low` and `high` are the numbers of
   the protocol that point to the two ends of the axis. It hangs on that end of
   the anchor rectangle, or on its middle, and extends to where gravity points.
   */
  predicate AskedAt(x: int, anchor: nat, gravity: nat, low: set<nat>, high: set<nat>,
                    at: int, extent: int, size: int, offset: int) {
    var point := x - offset + (if gravity in low then size else if gravity in high then 0 else -Half(-size));
    && (anchor in low ==> point == at)
    && (anchor in high ==> point == at + extent)
    && (anchor !in low && anchor !in high ==> point == at + Half(extent))
  }

  /** The numbers of xdg_positioner: left, top left, bottom left; right, top right, bottom right; and so on. */
  lemma AskedExactly(p: Positioner, w: int, h: int)
    ensures AskedAt(PlainX(p, w), p.anchor, p.gravity, {3, 5, 6}, {4, 7, 8},
                    p.anchorRect.x, p.anchorRect.width, w, p.offsetX)
    ensures AskedAt(PlainY(p, h), p.anchor, p.gravity, {1, 5, 7}, {2, 6, 8},
                    p.anchorRect.y, p.anchorRect.height, h, p.offsetY)
    ensures AskedAt(FlippedX(p, w), p.anchor, p.gravity, {4, 7, 8}, {3, 5, 6},
                    p.anchorRect.x, p.anchorRect.width, w, p.offsetX)
    ensures AskedAt(FlippedY(p, h), p.anchor, p.gravity, {2, 6, 8}, {1, 5, 7},
                    p.anchorRect.y, p.anchorRect.height, h, p.offsetY)
  {
    Points(p.anchor);
    Points(p.gravity);
    hide AxisX, AxisY, AskedAt, Half;
    AskedSide(p.anchor, p.gravity, {3, 5, 6}, {4, 7, 8}, AxisX(p.anchor), AxisX(p.gravity),
              p.anchorRect.x, p.anchorRect.width, w, p.offsetX);
    AskedSide(p.anchor, p.gravity, {1, 5, 7}, {2, 6, 8}, AxisY(p.anchor), AxisY(p.gravity),
              p.anchorRect.y, p.anchorRect.height, h, p.offsetY);
    AskedSide(p.anchor, p.gravity, {4, 7, 8}, {3, 5, 6}, Opposite(AxisX(p.anchor)), Opposite(AxisX(p.gravity)),
              p.anchorRect.x, p.anchorRect.width, w, p.offsetX);
    AskedSide(p.anchor, p.gravity, {2, 6, 8}, {1, 5, 7}, Opposite(AxisY(p.anchor)), Opposite(AxisY(p.gravity)),
              p.anchorRect.y, p.anchorRect.height, h, p.offsetY);
  }

  lemma Points(v: nat)
    ensures AxisX(v) == (if v in {3, 5, 6} then Low else if v in {4, 7, 8} then High else Middle)
    ensures AxisY(v) == (if v in {1, 5, 7} then Low else if v in {2, 6, 8} then High else Middle)
  {
  }

  lemma AskedSide(anchor: nat, gravity: nat, low: set<nat>, high: set<nat>, a: Side, g: Side,
                  at: int, extent: int, size: int, offset: int)
    requires low !! high
    requires a == (if anchor in low then Low else if anchor in high then High else Middle)
    requires g == (if gravity in low then Low else if gravity in high then High else Middle)
    ensures AskedAt(Placed(a, g, at, extent, size, offset), anchor, gravity, low, high, at, extent, size, offset)
  {
  }

  /** The size asked for, at least one and at most the parent's. */
  lemma SizeExactly(p: Positioner, parent: Rect)
    ensures var r := Place(p, parent);
      && r.width == (if p.width > parent.width && parent.width >= 1 then parent.width
                     else if parent.width < 1 then parent.width else if p.width < 1 then 1 else p.width)
      && r.height == (if p.height > parent.height && parent.height >= 1 then parent.height
                      else if parent.height < 1 then parent.height else if p.height < 1 then 1 else p.height)
  {
    hide Settled, Placed;
  }

  /**
   What fits where it was asked for is not moved; else what may be flipped and
   fits then is flipped; else it is moved inside, no further than it must be.
   */
  lemma FitsOrFlips(p: Positioner, parent: Rect)
    ensures var r := Place(p, parent);
      && FitOrFlip(r.x, PlainX(p, r.width), FlippedX(p, r.width), p.flipXAllowed, r.width, parent.width)
      && FitOrFlip(r.y, PlainY(p, r.height), FlippedY(p, r.height), p.flipYAllowed, r.height, parent.height)
  {
    hide Placed;
  }

  ghost predicate FitOrFlip(x: int, plain: int, flipped: int, allowed: bool, size: int, bound: int) {
    && (Fits(plain, size, bound) ==> x == plain)
    && (!Fits(plain, size, bound) && allowed && Fits(flipped, size, bound) ==> x == flipped)
    && (!Fits(plain, size, bound) && !(allowed && Fits(flipped, size, bound)) && size <= bound ==>
          Fits(x, size, bound) && forall other :: Fits(other, size, bound) ==> Apart(x, plain) <= Apart(other, plain))
  }

  function Apart(a: int, b: int): int {
    if a < b then b - a else a - b
  }

  /** Sliding goes no further than it must: no place inside is nearer to the one asked for. */
  lemma SlidIsNearest(x: int, size: int, bound: int, other: int)
    requires Fits(other, size, bound)
    ensures Fits(Slid(x, size, bound), size, bound)
    ensures Apart(Slid(x, size, bound), x) <= Apart(other, x)
  {
  }

  /** What an odd extent costs when it is the middle that is meant. */
  function Odd(s: Side, extent: int): int {
    if s == Middle && extent % 2 == 1 then 1 else 0
  }

  /**
   The flipped popup is the mirror image about the middle of the anchor
   rectangle, the offset aside, but for the halves that rounding drops: exactly
   when those agree, in particular when anchor and gravity both point
   somewhere on the axis.
   */
  lemma FlipMirrors(anchor: Side, gravity: Side, at: int, extent: nat, size: nat, offset: int)
    ensures var x := Placed(anchor, gravity, at, extent, size, offset) - offset;
      var f := Placed(Opposite(anchor), Opposite(gravity), at, extent, size, offset) - offset;
      && x + (f + size) == 2 * at + extent - Odd(anchor, extent) + Odd(gravity, size)
      && (anchor != Middle && gravity != Middle ==> x - at == (at + extent) - (f + size))
  {
  }
}
