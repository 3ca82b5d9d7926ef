/** The tight bounding box of the opaque pixels and the crop to it, built
    the way the numpy code builds it: `np.any` over rows and columns, then
    `np.argmax` from the front and from the back. */
module Bounds {
  import opened Raster

  /** Row i of m holds a true cell. */
  ghost predicate RowHas(m: Mask, i: int) {
    exists p :: At(m, p) && p.row == i
  }

  /** Column j of m holds a true cell. */
  ghost predicate ColHas(m: Mask, j: int) {
    exists p :: At(m, p) && p.col == j
  }

  /** `np.any(mask, axis=1)`. */
  function RowsAny(m: Mask): (r: seq<bool>)
    requires Rect(m)
    ensures |r| == |m|
    ensures forall i :: 0 <= i < |m| ==> (r[i] <==> RowHas(m, i))
  {
    var r := seq(|m|, i requires 0 <= i < |m| => exists j | 0 <= j < Width(m) :: m[i][j]);
    forall i | 0 <= i < |m| && RowHas(m, i) ensures r[i] {
      var p :| At(m, p) && p.row == i;
      assert m[i][p.col];
    }
    forall i | 0 <= i < |m| && r[i] ensures RowHas(m, i) {
      var j :| 0 <= j < Width(m) && m[i][j];
      assert At(m, Pos(i, j));
    }
    r
  }

  /** `np.any(mask, axis=0)`. */
  function ColsAny(m: Mask): (c: seq<bool>)
    requires Rect(m)
    ensures |c| == Width(m)
    ensures forall j :: 0 <= j < Width(m) ==> (c[j] <==> ColHas(m, j))
  {
    var c := seq(Width(m), j requires 0 <= j < Width(m) => exists i | 0 <= i < |m| :: m[i][j]);
    forall j | 0 <= j < Width(m) && ColHas(m, j) ensures c[j] {
      var p :| At(m, p) && p.col == j;
      assert m[p.row][j];
    }
    forall j | 0 <= j < Width(m) && c[j] ensures ColHas(m, j) {
      var i :| 0 <= i < |m| && m[i][j];
      assert At(m, Pos(i, j));
    }
    c
  }

  /** The index of the first true element, or |s| when there is none. */
  function FirstTrue(s: seq<bool>): (k: nat)
    ensures k <= |s|
    ensures k < |s| ==> s[k]
    ensures forall i :: 0 <= i < k ==> !s[i]
  {
    if s == [] then 0 else if s[0] then 0 else 1 + FirstTrue(s[1..])
  }

  /** `np.argmax` of a boolean vector: the first true index, 0 when none. */
  function ArgMax(s: seq<bool>): (k: nat)
    ensures (exists i :: 0 <= i < |s| && s[i]) ==> k < |s| && s[k] && forall i :: 0 <= i < k ==> !s[i]
    ensures (forall i :: 0 <= i < |s| ==> !s[i]) ==> k == 0
  {
    var f := FirstTrue(s);
    if f < |s| then f else 0
  }

  /** One past the last true index, computed as `len(s) - argmax(s[::-1])`. */
  function EndOfTrue(s: seq<bool>): (e: nat)
    requires exists i :: 0 <= i < |s| && s[i]
    ensures 0 < e <= |s| && s[e - 1]
    ensures forall i :: e <= i < |s| ==> !s[i]
  {
    ReverseHasTrue(s);
    var k := ArgMax(Reverse(s));
    LastTrueFromReverse(s, k);
    |s| - k
  }

  lemma ReverseHasTrue(s: seq<bool>)
    requires exists i :: 0 <= i < |s| && s[i]
    ensures exists i :: 0 <= i < |s| && Reverse(s)[i]
  {
    var i :| 0 <= i < |s| && s[i];
    assert Reverse(s)[|s| - 1 - i];
  }

  lemma LastTrueFromReverse(s: seq<bool>, k: nat)
    requires k < |s| && Reverse(s)[k] && forall i :: 0 <= i < k ==> !Reverse(s)[i]
    ensures s[|s| - 1 - k] && forall j :: |s| - k <= j < |s| ==> !s[j]
  {
    var r := Reverse(s);
    forall j | |s| - k <= j < |s| ensures !s[j] {
      assert r[|s| - 1 - j] == s[j];
    }
  }

  /** A half-open box: columns left..right-1, rows top..bottom-1, in the
      order PIL's `crop` takes them. */
  datatype Box = Box(left: int, top: int, right: int, bottom: int)

  predicate BoxWithin<T>(g: seq<seq<T>>, b: Box) {
    0 <= b.top <= b.bottom <= |g| && 0 <= b.left <= b.right <= Width(g)
  }

  predicate InBox(b: Box, p: Pos) {
    b.top <= p.row < b.bottom && b.left <= p.col < b.right
  }

  /** The tight box of the true cells: its first and last rows and columns
      each hold a true cell and every true cell lies inside it. */
  function ContentBox(m: Mask): (b: Box)
    requires Rect(m) && exists p :: At(m, p)
    ensures BoxWithin(m, b) && b.top < b.bottom && b.left < b.right
    ensures RowHas(m, b.top) && RowHas(m, b.bottom - 1)
    ensures ColHas(m, b.left) && ColHas(m, b.right - 1)
    ensures forall p :: At(m, p) ==> InBox(b, p)
  {
    var rows, cols := RowsAny(m), ColsAny(m);
    AxesHaveTrue(m);
    var b := Box(ArgMax(cols), ArgMax(rows), EndOfTrue(cols), EndOfTrue(rows));
    forall q | At(m, q) ensures InBox(b, q) {
      assert rows[q.row] && cols[q.col];
    }
    b
  }

  lemma AxesHaveTrue(m: Mask)
    requires Rect(m) && exists p :: At(m, p)
    ensures exists i :: 0 <= i < |m| && RowsAny(m)[i]
    ensures exists j :: 0 <= j < Width(m) && ColsAny(m)[j]
  {
    var p :| At(m, p);
    assert RowsAny(m)[p.row] && ColsAny(m)[p.col];
  }

  /** `image.crop(box)` for a box inside the image. */
  function Crop(g: Grid, b: Box): (r: Grid)
    requires Rect(g) && BoxWithin(g, b)
    ensures Rect(r) && |r| == b.bottom - b.top && (|r| > 0 ==> Width(r) == b.right - b.left)
    ensures forall p :: InGrid(r, p) ==> Px(r, p) == Px(g, Pos(p.row + b.top, p.col + b.left))
  {
    seq(b.bottom - b.top, i requires 0 <= i < b.bottom - b.top => g[b.top + i][b.left..b.right])
  }

  /** Crop to the tight box of alpha > 0, or keep the pixels when nothing is
      opaque. */
  function CropToOpaque(g: Grid): (r: Grid)
    requires Rect(g)
    ensures Rect(r)
  {
    var m := AlphaMask(g);
    if AnyTrue(m) then Crop(g, ContentBox(m)) else g
  }

  // ---------------------------------------------------------------------
  // Properties of the crop

  /** Every opaque pixel survives the crop, unchanged, shifted by the box's
      corner. */
  lemma CropKeepsOpaque(g: Grid, p: Pos)
    requires Rect(g) && At(AlphaMask(g), p)
    ensures InBox(ContentBox(AlphaMask(g)), p)
    ensures InGrid(CropToOpaque(g), Shift(p, ContentBox(AlphaMask(g))))
    ensures Px(CropToOpaque(g), Shift(p, ContentBox(AlphaMask(g)))) == Px(g, p)
  {
    var m := AlphaMask(g);
    assert AnyTrue(m);
    var b := ContentBox(m);
    assert InBox(b, p);
    assert CropToOpaque(g) == Crop(g, b);
    CropKeepsInside(g, b, p);
  }

  /** CropKeepsOpaque for every opaque pixel at once. */
  lemma CropKeepsEveryOpaque(g: Grid)
    requires Rect(g)
    ensures forall p :: At(AlphaMask(g), p) ==>
              InBox(ContentBox(AlphaMask(g)), p) &&
              InGrid(CropToOpaque(g), Shift(p, ContentBox(AlphaMask(g)))) &&
              Px(CropToOpaque(g), Shift(p, ContentBox(AlphaMask(g)))) == Px(g, p)
  {
    forall p | At(AlphaMask(g), p)
      ensures InBox(ContentBox(AlphaMask(g)), p) &&
              InGrid(CropToOpaque(g), Shift(p, ContentBox(AlphaMask(g)))) &&
              Px(CropToOpaque(g), Shift(p, ContentBox(AlphaMask(g)))) == Px(g, p)
    {
      CropKeepsOpaque(g, p);
    }
  }

  /** A crop keeps every pixel of its box, shifted by the box's corner. */
  lemma CropKeepsInside(g: Grid, b: Box, p: Pos)
    requires Rect(g) && BoxWithin(g, b) && InGrid(g, p) && InBox(b, p)
    ensures InGrid(Crop(g, b), Shift(p, b)) && Px(Crop(g, b), Shift(p, b)) == Px(g, p)
  {
    var q := Shift(p, b);
    assert Pos(q.row + b.top, q.col + b.left) == p;
  }

  /** p relative to the box's top-left corner. */
  function Shift(p: Pos, b: Box): Pos {
    Pos(p.row - b.top, p.col - b.left)
  }

  /** The crop is never larger than the image. */
  lemma CropNeverGrows(g: Grid)
    requires Rect(g)
    ensures |CropToOpaque(g)| <= |g| && Width(CropToOpaque(g)) <= Width(g)
  {
  }

  /** An opaque pixel inside the box is an opaque pixel of the crop. */
  lemma OpaqueStaysOpaque(g: Grid, b: Box, p: Pos)
    requires Rect(g) && BoxWithin(g, b) && At(AlphaMask(g), p) && InBox(b, p)
    ensures At(AlphaMask(Crop(g, b)), Shift(p, b))
  {
    CropKeepsInside(g, b, p);
  }

  /** Every border line of a crop holds an opaque pixel. */
  lemma CropIsTight(g: Grid)
    requires Rect(g) && AnyTrue(AlphaMask(g))
    ensures var r := CropToOpaque(g);
            var m := AlphaMask(r);
            |r| > 0 && Width(r) > 0 &&
            RowHas(m, 0) && RowHas(m, |r| - 1) && ColHas(m, 0) && ColHas(m, Width(r) - 1)
  {
    var m := AlphaMask(g);
    var b := ContentBox(m);
    var r := Crop(g, b);
    assert CropToOpaque(g) == r;
    var rm := AlphaMask(r);
    var p0 :| At(m, p0) && p0.row == b.top;
    OpaqueStaysOpaque(g, b, p0);
    var p1 :| At(m, p1) && p1.row == b.bottom - 1;
    OpaqueStaysOpaque(g, b, p1);
    var p2 :| At(m, p2) && p2.col == b.left;
    OpaqueStaysOpaque(g, b, p2);
    var p3 :| At(m, p3) && p3.col == b.right - 1;
    OpaqueStaysOpaque(g, b, p3);
    assert RowHas(rm, Shift(p0, b).row) && RowHas(rm, Shift(p1, b).row);
    assert ColHas(rm, Shift(p2, b).col) && ColHas(rm, Shift(p3, b).col);
  }

  /** Cropping to the whole grid changes nothing. */
  lemma CropWhole(g: Grid)
    requires Rect(g) && |g| > 0
    ensures Crop(g, Box(0, 0, Width(g), |g|)) == g
  {
    GridExt(Crop(g, Box(0, 0, Width(g), |g|)), g);
  }

  /** A mask whose border lines all hold a true cell is its own content box. */
  lemma TightBoxIsWhole(m: Mask)
    requires Rect(m) && |m| > 0 && Width(m) > 0
    requires RowHas(m, 0) && RowHas(m, |m| - 1) && ColHas(m, 0) && ColHas(m, Width(m) - 1)
    ensures ContentBox(m) == Box(0, 0, Width(m), |m|)
  {
    var b := ContentBox(m);
    var q :| At(m, q) && q.row == |m| - 1;
    assert InBox(b, q);
    var q' :| At(m, q') && q'.col == Width(m) - 1;
    assert InBox(b, q');
    var q0 :| At(m, q0) && q0.row == 0;
    assert InBox(b, q0);
    var q0' :| At(m, q0') && q0'.col == 0;
    assert InBox(b, q0');
  }

  /** Cropping twice is cropping once. */
  lemma CropIdempotent(g: Grid)
    requires Rect(g)
    ensures CropToOpaque(CropToOpaque(g)) == CropToOpaque(g)
  {
    if AnyTrue(AlphaMask(g)) {
      var r := CropToOpaque(g);
      CropIsTight(g);
      var rm := AlphaMask(r);
      TightBoxIsWhole(rm);
      assert AnyTrue(rm);
      assert CropToOpaque(r) == Crop(r, Box(0, 0, Width(r), |r|));
      CropWhole(r);
    }
  }
}
