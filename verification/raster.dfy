/** The bitmap data model shared by every image operation: RGBA pixels,
    rectangular grids of them, boolean masks derived from them, and the
    copy-in / copy-out between an immutable image and the mutable pixel array
    that the operations write in place. */
module Raster {

  /** One pixel; each channel is meant to lie in 0..255. */
  datatype Pixel = Pixel(r: int, g: int, b: int, a: int)

  /** Every channel in 0..255, as in any image PIL hands back. */
  predicate ValidPixel(x: Pixel) {
    0 <= x.r <= 255 && 0 <= x.g <= 255 && 0 <= x.b <= 255 && 0 <= x.a <= 255
  }

  const Transparent := Pixel(0, 0, 0, 0)
  const OpaqueWhite := Pixel(255, 255, 255, 255)

  /** Rows of pixels, top row first. */
  type Grid = seq<seq<Pixel>>
  /** A same-sized boolean grid, e.g. "pixel is near-white". */
  type Mask = seq<seq<bool>>

  /** The pixel mode of an image. Pixels of a non-RGBA image are stored as
      their RGBA conversion, so converting only changes the mode. */
  datatype Mode = RGBA | RGB | OtherMode

  datatype Image = Image(mode: Mode, px: Grid)

  /** A grid position. */
  datatype Pos = Pos(row: int, col: int)

  function Width<T>(g: seq<seq<T>>): nat {
    if |g| == 0 then 0 else |g[0]|
  }

  /** Every row has the width of the first one. */
  predicate Rect<T>(g: seq<seq<T>>) {
    forall i :: 0 <= i < |g| ==> |g[i]| == Width(g)
  }

  predicate ValidGrid(g: Grid) {
    forall i, j :: 0 <= i < |g| && 0 <= j < |g[i]| ==> ValidPixel(g[i][j])
  }

  predicate SameShape<T, U>(a: seq<seq<T>>, b: seq<seq<U>>) {
    Rect(a) && Rect(b) && |a| == |b| && Width(a) == Width(b)
  }

  predicate InGrid<T>(g: seq<seq<T>>, p: Pos) {
    0 <= p.row < |g| && 0 <= p.col < Width(g)
  }

  function Px(g: Grid, p: Pos): Pixel
    requires Rect(g) && InGrid(g, p)
  {
    g[p.row][p.col]
  }

  /** The mask value at p; positions outside the mask read as false. */
  function At(m: Mask, p: Pos): bool {
    0 <= p.row < |m| && 0 <= p.col < |m[p.row]| && m[p.row][p.col]
  }

  predicate SameColour(x: Pixel, y: Pixel) {
    x.r == y.r && x.g == y.g && x.b == y.b
  }

  function ToRGBA(img: Image): (r: Image)
    ensures r.mode == RGBA && r.px == img.px
  {
    img.(mode := RGBA)
  }

  function ConstMask(h: nat, w: nat, v: bool): (m: Mask)
    ensures |m| == h && Rect(m) && (h > 0 ==> Width(m) == w)
    ensures forall i :: 0 <= i < h ==> |m[i]| == w
    ensures forall p :: At(m, p) <==> v && 0 <= p.row < h && 0 <= p.col < w
  {
    seq(h, i => seq(w, j => v))
  }

  /** `alpha > 0`. */
  function AlphaMask(g: Grid): (m: Mask)
    requires Rect(g)
    ensures SameShape(m, g)
    ensures forall p :: At(m, p) <==> InGrid(g, p) && Px(g, p).a > 0
  {
    seq(|g|, i requires 0 <= i < |g| => seq(Width(g), j requires 0 <= j < Width(g) => g[i][j].a > 0))
  }

  /** Elementwise `a & b`. */
  function MaskAnd(a: Mask, b: Mask): (m: Mask)
    requires SameShape(a, b)
    ensures SameShape(m, a)
    ensures forall p :: At(m, p) <==> At(a, p) && At(b, p)
  {
    seq(|a|, i requires 0 <= i < |a| => seq(Width(a), j requires 0 <= j < Width(a) => a[i][j] && b[i][j]))
  }

  /** Elementwise `a | b`. */
  function MaskOr(a: Mask, b: Mask): (m: Mask)
    requires SameShape(a, b)
    ensures SameShape(m, a)
    ensures forall p :: At(m, p) <==> At(a, p) || At(b, p)
  {
    seq(|a|, i requires 0 <= i < |a| => seq(Width(a), j requires 0 <= j < Width(a) => a[i][j] || b[i][j]))
  }

  function CountRow(row: seq<bool>): nat {
    if row == [] then 0 else CountRow(row[..|row| - 1]) + (if row[|row| - 1] then 1 else 0)
  }

  /** `np.sum(mask)`: the number of true cells. */
  function CountTrue(m: Mask): nat {
    if m == [] then 0 else CountTrue(m[..|m| - 1]) + CountRow(m[|m| - 1])
  }

  lemma {:induction false} CountRowZero(row: seq<bool>)
    requires forall j :: 0 <= j < |row| ==> !row[j]
    ensures CountRow(row) == 0
  {
    if row != [] {
      CountRowZero(row[..|row| - 1]);
    }
  }

  lemma {:induction false} CountRowPositive(row: seq<bool>, j: int)
    requires 0 <= j < |row| && row[j]
    ensures CountRow(row) >= 1
  {
    if j < |row| - 1 {
      CountRowPositive(row[..|row| - 1], j);
    }
  }

  /** The sequence read back to front (`s[::-1]`). */
  function Reverse<T>(s: seq<T>): (r: seq<T>)
    ensures |r| == |s|
    ensures forall k :: 0 <= k < |s| ==> r[k] == s[|s| - 1 - k]
  {
    if s == [] then [] else Reverse(s[1..]) + [s[0]]
  }

  /** A mask with no true cell sums to zero. */
  lemma {:induction false} CountTrueZero(m: Mask)
    requires forall p :: !At(m, p)
    ensures CountTrue(m) == 0
  {
    if m != [] {
      var last := m[|m| - 1];
      forall j | 0 <= j < |last| ensures !last[j] {
        assert !At(m, Pos(|m| - 1, j));
      }
      CountRowZero(last);
      var init := m[..|m| - 1];
      forall p ensures !At(init, p) {
        assert At(init, p) ==> At(m, p);
      }
      CountTrueZero(init);
    }
  }

  /** A mask with a true cell sums to at least one. */
  lemma {:induction false} CountTruePositive(m: Mask, p: Pos)
    requires At(m, p)
    ensures CountTrue(m) >= 1
  {
    if p.row == |m| - 1 {
      CountRowPositive(m[p.row], p.col);
    } else {
      assert At(m[..|m| - 1], p);
      CountTruePositive(m[..|m| - 1], p);
    }
  }

  /** `np.any(mask)`. */
  function AnyTrue(m: Mask): (b: bool)
    ensures b <==> exists p :: At(m, p)
  {
    if exists i, j | 0 <= i < |m| && 0 <= j < |m[i]| :: m[i][j] then
      var i, j :| 0 <= i < |m| && 0 <= j < |m[i]| && m[i][j];
      assert At(m, Pos(i, j));
      true
    else
      false
  }

  /** Two rectangular masks of one shape that agree at every position are equal. */
  lemma MaskExt(a: Mask, b: Mask)
    requires SameShape(a, b)
    requires forall p :: At(a, p) == At(b, p)
    ensures a == b
  {
    forall i | 0 <= i < |a| ensures a[i] == b[i] {
      forall j | 0 <= j < |a[i]| ensures a[i][j] == b[i][j] {
        assert At(a, Pos(i, j)) == At(b, Pos(i, j));
      }
    }
  }

  /** Two rectangular grids of one shape that agree at every position are equal. */
  lemma GridExt(a: Grid, b: Grid)
    requires SameShape(a, b)
    requires forall p :: InGrid(a, p) ==> Px(a, p) == Px(b, p)
    ensures a == b
  {
    forall i | 0 <= i < |a| ensures a[i] == b[i] {
      forall j | 0 <= j < |a[i]| ensures a[i][j] == b[i][j] {
        assert Px(a, Pos(i, j)) == Px(b, Pos(i, j));
      }
    }
  }

  /** `np.array(image)`: a fresh mutable copy of the pixels. */
  method Load(g: Grid) returns (data: array2<Pixel>)
    requires Rect(g)
    ensures fresh(data)
    ensures data.Length0 == |g| && data.Length1 == Width(g)
    ensures forall i, j :: 0 <= i < data.Length0 && 0 <= j < data.Length1 ==> data[i, j] == g[i][j]
  {
    data := new Pixel[|g|, Width(g)]((i, j) requires 0 <= i < |g| && 0 <= j < Width(g) => g[i][j]);
  }

  /** `Image.fromarray(data)`: an immutable copy of the array. */
  method Store(data: array2<Pixel>) returns (g: Grid)
    requires data.Length0 > 0
    ensures |g| == data.Length0 && Width(g) == data.Length1 && Rect(g)
    ensures forall i, j :: 0 <= i < data.Length0 && 0 <= j < data.Length1 ==> g[i][j] == data[i, j]
  {
    g := seq(data.Length0, i requires 0 <= i < data.Length0 reads data =>
           seq(data.Length1, j requires 0 <= j < data.Length1 reads data => data[i, j]));
  }
}
