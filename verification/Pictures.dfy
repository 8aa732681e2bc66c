/** Pixels, rectangles and pictures; row-major buffers of them. */
module Pictures {
  import opened Bytes

  datatype Pixel = Pixel(r: byte, g: byte, b: byte, a: byte)
  const CLEAR := Pixel(0, 0, 0, 0)

  datatype Rect = Rect(x: int, y: int, width: int, height: int)

  predicate Inside(r: Rect, x: int, y: int) {
    r.x <= x < r.x + r.width && r.y <= y < r.y + r.height
  }

  /** A rectangle with something in it, all of it within a `w` by `h` picture. */
  predicate Fits(r: Rect, w: int, h: int) {
    && 0 <= r.x && 0 < r.width && r.x + r.width <= w
    && 0 <= r.y && 0 < r.height && r.y + r.height <= h
  }

  predicate Covers(r: Rect, w: int, h: int) {
    r.x <= 0 && r.y <= 0 && r.x + r.width >= w && r.y + r.height >= h
  }

  type Rows = seq<seq<Pixel>>

  predicate Shaped(rows: Rows, w: int, h: int) {
    |rows| == h && forall y :: 0 <= y < h ==> |rows[y]| == w
  }

  datatype PictureFields = PictureFields(w: int, h: int, rows: Rows)

  /** A picture of at least one pixel. */
  type Picture = p: PictureFields | p.w > 0 && p.h > 0 && Shaped(p.rows, p.w, p.h)
    witness PictureFields(1, 1, [[CLEAR]])

  function BlankRows(w: nat, h: nat): (rows: Rows)
    ensures Shaped(rows, w, h)
  {
    seq(h, y => seq(w, x => CLEAR))
  }

  function Blank(w: int, h: int): Picture
    requires w > 0 && h > 0
  {
    PictureFields(w, h, BlankRows(w, h))
  }

  /** The row `seg` written over `row` at `x`. */
  function Splice<T>(row: seq<T>, x: int, seg: seq<T>): (r: seq<T>)
    requires 0 <= x && x + |seg| <= |row|
    ensures |r| == |row|
  {
    row[..x] + seg + row[x + |seg|..]
  }

  /** The first `n` rows of `pix` drawn on the picture at the corner of `d`. */
  function BlitRows(rows: Rows, d: Rect, pix: Rows, n: nat, w: int, h: int): (r: Rows)
    requires Shaped(rows, w, h) && Fits(d, w, h) && Shaped(pix, d.width, d.height) && n <= d.height
    ensures Shaped(r, w, h)
  {
    seq(h, y requires 0 <= y < h => if d.y <= y < d.y + n then Splice(rows[y], d.x, pix[y - d.y]) else rows[y])
  }

  function Blit(p: Picture, d: Rect, pix: Rows): (q: Picture)
    requires Fits(d, p.w, p.h) && Shaped(pix, d.width, d.height)
    ensures q.w == p.w && q.h == p.h
    ensures forall x, y :: 0 <= x < p.w && 0 <= y < p.h ==>
      q.rows[y][x] == if Inside(d, x, y) then pix[y - d.y][x - d.x] else p.rows[y][x]
  {
    p.(rows := BlitRows(p.rows, d, pix, d.height, p.w, p.h))
  }

  function CropRows(rows: Rows, d: Rect, n: nat, w: int, h: int): (pix: Rows)
    requires Shaped(rows, w, h) && Fits(d, w, h) && n <= d.height
    ensures Shaped(pix, d.width, n)
  {
    seq(n, y requires 0 <= y < n => rows[d.y + y][d.x..d.x + d.width])
  }

  /** The pixels of `p` within `d`. */
  function Crop(p: Picture, d: Rect): (pix: Rows)
    requires Fits(d, p.w, p.h)
    ensures Shaped(pix, d.width, d.height)
    ensures forall x, y :: 0 <= x < d.width && 0 <= y < d.height ==> pix[y][x] == p.rows[d.y + y][d.x + x]
  {
    CropRows(p.rows, d, d.height, p.w, p.h)
  }

  lemma SamePicture(p: Picture, q: Picture)
    requires p.w == q.w && p.h == q.h
    requires forall x, y :: 0 <= x < p.w && 0 <= y < p.h ==> p.rows[y][x] == q.rows[y][x]
    ensures p == q
  {
    forall y | 0 <= y < p.h ensures p.rows[y] == q.rows[y] { }
    assert p.rows == q.rows;
  }

  /* ---- Row-major buffers ---- */

  /** Where row `y` begins in a buffer of rows of `w`. */
  function RowStart(y: nat, w: nat): nat {
    if y == 0 then 0 else RowStart(y - 1, w) + w
  }

  lemma {:induction false} RowStartIs(y: nat, w: nat)
    ensures RowStart(y, w) == y * w
  {
    if y > 0 { RowStartIs(y - 1, w); }
  }

  lemma {:induction false} RowFits(y: nat, w: nat, h: nat)
    requires y < h
    ensures RowStart(y, w) + w <= RowStart(h, w)
    decreases h
  {
    if y < h - 1 { RowFits(y, w, h - 1); }
  }

  /** The rows of a buffer that holds them one after another. */
  function RowsOf(flat: seq<Pixel>, w: nat, h: nat): (rows: Rows)
    requires |flat| == RowStart(h, w)
    ensures Shaped(rows, w, h)
    decreases h
  {
    if h == 0 then []
    else RowsOf(flat[..RowStart(h - 1, w)], w, h - 1) + [flat[RowStart(h - 1, w)..]]
  }

  /** The rows of a buffer are those before the last, and the last. */
  lemma RowsCut(flat: seq<Pixel>, w: nat, h: nat)
    requires |flat| == RowStart(h, w) && h > 0
    ensures RowStart(h - 1, w) + w == |flat|
    ensures RowsOf(flat, w, h) == RowsOf(flat[..RowStart(h - 1, w)], w, h - 1) + [flat[RowStart(h - 1, w)..]]
  {
  }

  lemma {:induction false} RowAt(flat: seq<Pixel>, w: nat, h: nat, y: nat)
    requires |flat| == RowStart(h, w) && y < h
    ensures RowStart(y, w) + w <= |flat|
    ensures RowsOf(flat, w, h)[y] == flat[RowStart(y, w)..RowStart(y, w) + w]
    decreases h
  {
    hide RowsOf;
    RowFits(y, w, h);
    RowsCut(flat, w, h);
    var n, at := RowStart(h - 1, w), RowStart(y, w);
    if y < h - 1 {
      RowFits(y, w, h - 1);
      RowAt(flat[..n], w, h - 1, y);
      assert flat[..n][at..at + w] == flat[at..at + w];
    } else {
      assert flat[n..] == flat[at..at + w];
    }
  }

  /** Copying a run of pixels within one row of a buffer changes that row only. */
  lemma {:induction false} RowWrite(flat: seq<Pixel>, w: nat, h: nat, y: nat, x: nat, seg: seq<Pixel>)
    requires |flat| == RowStart(h, w) && y < h && x + |seg| <= w
    ensures RowStart(y, w) + x + |seg| <= |flat|
    ensures RowsOf(Splice(flat, RowStart(y, w) + x, seg), w, h)
         == RowsOf(flat, w, h)[y := Splice(RowsOf(flat, w, h)[y], x, seg)]
    decreases h
  {
    hide RowsOf, Splice;
    RowFits(y, w, h);
    var n := RowStart(h - 1, w);
    var before, last := flat[..n], flat[n..];
    var at := RowStart(y, w) + x;
    var written := Splice(flat, at, seg);
    SpliceCut(flat, at, seg, n);
    RowsCut(flat, w, h);
    RowsCut(written, w, h);
    if y < h - 1 {
      RowFits(y, w, h - 1);
      RowWrite(before, w, h - 1, y, x, seg);
      SetInFront(RowsOf(before, w, h - 1), last, y, Splice(RowsOf(before, w, h - 1)[y], x, seg));
    } else {
      SetLast(RowsOf(before, w, h - 1), last, Splice(last, x, seg));
    }
  }

  lemma SetInFront<T>(rows: seq<T>, last: T, y: nat, row: T)
    requires y < |rows|
    ensures (rows + [last])[y := row] == rows[y := row] + [last] && (rows + [last])[y] == rows[y]
  {
  }

  lemma SetLast<T>(rows: seq<T>, last: T, row: T)
    ensures (rows + [last])[|rows| := row] == rows + [row] && (rows + [last])[|rows|] == last
  {
  }

  /** A segment on one side of a cut is spliced into that side. */
  lemma SpliceCut<T>(s: seq<T>, at: int, seg: seq<T>, n: nat)
    requires 0 <= at && at + |seg| <= |s| && n <= |s|
    ensures at + |seg| <= n ==> Splice(s, at, seg)[..n] == Splice(s[..n], at, seg) && Splice(s, at, seg)[n..] == s[n..]
    ensures n <= at ==> Splice(s, at, seg)[..n] == s[..n] && Splice(s, at, seg)[n..] == Splice(s[n..], at - n, seg)
  {
  }

  /** memcpy, over pixels. */
  method CopyPixels(dst: array<Pixel>, at: nat, src: array<Pixel>, from: nat, n: nat)
    requires at + n <= dst.Length && from + n <= src.Length && dst != src
    modifies dst
    ensures dst[..] == Splice(old(dst[..]), at, src[from..from + n])
  {
    forall i | 0 <= i < n { dst[at + i] := src[from + i]; }
    assert dst[..] == Splice(old(dst[..]), at, src[from..from + n]);
  }

  /**
   Copies `n` pixels of row `sy` of one buffer into row `y` of another: the
   memcpy of the source, with its offsets, and what it means for the rows.
   */
  method CopyRow(dst: array<Pixel>, w: nat, h: nat, x: nat, y: nat,
                 src: array<Pixel>, sw: nat, sh: nat, sx: nat, sy: nat, n: nat)
    requires dst.Length == RowStart(h, w) && y < h && x + n <= w
    requires src.Length == RowStart(sh, sw) && sy < sh && sx + n <= sw
    requires dst != src
    modifies dst
    ensures var was := old(RowsOf(dst[..], w, h));
      RowsOf(dst[..], w, h) == was[y := Splice(was[y], x, RowsOf(src[..], sw, sh)[sy][sx..sx + n])]
  {
    RowStartIs(y, w);
    RowStartIs(sy, sw);
    RowAt(src[..], sw, sh, sy);
    var at, from := y * w + x, sy * sw + sx;
    ghost var seg := src[from..from + n];
    assert seg == RowsOf(src[..], sw, sh)[sy][sx..sx + n];
    RowWrite(dst[..], w, h, y, x, seg);
    CopyPixels(dst, at, src, from, n);
  }
}
