/** Bottom flattening: find the lowest opaque row inside a central band of
    columns (the torso, leaving out hands held to the side) and make every
    row below it transparent, so the figure ends in a straight horizontal
    edge. */
module Flatten {
  import opened Raster
  import opened Results
  import opened Bounds

  /** An inclusive range of columns. */
  datatype Band = Band(lo: int, hi: int)

  /** The central band `c - w // 3 .. c + w // 3` where `c` is the middle of
      the opaque columns and `w` their spread. */
  function CentreBand(m: Mask): (band: Band)
    requires Rect(m) && AnyTrue(m)
    ensures var b := ContentBox(m);
            b.left <= band.lo && band.lo <= band.hi && band.hi <= b.right - 1
  {
    var b := ContentBox(m);
    var c := (b.left + b.right - 1) / 2;
    var w := (b.right - 1 - b.left) / 3;
    HalfAndThird(b.left, b.right - 1 - b.left);
    Band(c - w, c + w)
  }

  /** With x the spread of the columns, the middle lies x // 2 past the
      first column, and a third on either side of it stays inside. */
  lemma HalfAndThird(left: int, x: nat)
    ensures (left + left + x) / 2 == left + x / 2
    ensures x / 3 <= x / 2 && x / 2 + x / 3 <= x
  {
  }

  /** Row i of m holds a true cell inside the band. */
  ghost predicate HitsBand(m: Mask, i: int, band: Band) {
    exists p :: At(m, p) && p.row == i && band.lo <= p.col <= band.hi
  }

  /** Some true cell of m lies inside the band. */
  ghost predicate BandAny(m: Mask, band: Band) {
    exists p :: At(m, p) && band.lo <= p.col <= band.hi
  }

  predicate RowHitsBand(row: seq<bool>, band: Band) {
    exists j | 0 <= j < |row| && band.lo <= j <= band.hi :: row[j]
  }

  /** `rows[center_region].max()` when the band holds a true cell: the
      lowest row with a true cell in the band, or None. */
  function LowestInBand(m: Mask, band: Band): (r: Option<nat>)
    ensures r.None? <==> !BandAny(m, band)
    ensures r.Some? ==> r.value < |m| && HitsBand(m, r.value, band)
    ensures r.Some? ==> forall p :: At(m, p) && band.lo <= p.col <= band.hi ==> p.row <= r.value
  {
    if |m| == 0 then None
    else
      var last := |m| - 1;
      if RowHitsBand(m[last], band) then
        LastRowHits(m, band);
        Some(last)
      else
        LowerRowsOnly(m, band);
        LowestInBand(m[..last], band)
  }

  lemma LastRowHits(m: Mask, band: Band)
    requires |m| > 0 && RowHitsBand(m[|m| - 1], band)
    ensures HitsBand(m, |m| - 1, band)
  {
    var j :| 0 <= j < |m[|m| - 1]| && band.lo <= j <= band.hi && m[|m| - 1][j];
    assert At(m, Pos(|m| - 1, j));
  }

  /** When the last row misses the band, the band's true cells are those of
      the rows above it. */
  lemma LowerRowsOnly(m: Mask, band: Band)
    requires |m| > 0 && !RowHitsBand(m[|m| - 1], band)
    ensures forall p :: At(m, p) && band.lo <= p.col <= band.hi <==>
                        At(m[..|m| - 1], p) && band.lo <= p.col <= band.hi
  {
    forall p | At(m, p) && band.lo <= p.col <= band.hi ensures p.row < |m| - 1 {
    }
  }

  /** `body_bottom_row` as the original converter computes it: the lowest
      opaque row in the central band, or the lowest opaque row overall when
      the band holds none. */
  function OriginalBottom(m: Mask): (r: nat)
    requires Rect(m) && AnyTrue(m)
    ensures r < |m| && RowHas(m, r)
    ensures forall p :: At(m, p) && CentreBand(m).lo <= p.col <= CentreBand(m).hi ==> p.row <= r
    ensures !BandAny(m, CentreBand(m)) ==> forall p :: At(m, p) ==> p.row <= r
    ensures BandAny(m, CentreBand(m)) ==> HitsBand(m, r, CentreBand(m))
  {
    match LowestInBand(m, CentreBand(m))
    case Some(k) => k
    case None => ContentBox(m).bottom - 1
  }

  /** The bottom row the pipeline components use: the same band, but no
      fallback, so nothing is flattened when the band holds no opaque pixel
      or the image holds none at all. */
  function PipelineBottom(m: Mask): (r: Option<nat>)
    requires Rect(m)
    ensures r.Some? <==> AnyTrue(m) && BandAny(m, CentreBand(m))
    ensures r.Some? ==> r.value == OriginalBottom(m)
  {
    if AnyTrue(m) then LowestInBand(m, CentreBand(m)) else None
  }

  /** The image with alpha 0 on every row strictly below `row`. */
  function ClearedBelow(g: Grid, row: int): (r: Grid)
    requires Rect(g)
    ensures SameShape(r, g)
    ensures forall p :: InGrid(g, p) ==>
              Px(r, p) == if p.row > row then Px(g, p).(a := 0) else Px(g, p)
  {
    seq(|g|, i requires 0 <= i < |g| =>
      seq(Width(g), j requires 0 <= j < Width(g) => if i > row then g[i][j].(a := 0) else g[i][j]))
  }

  /** `if bottom < height - 1: data[bottom + 1:, :, 3] = 0` on a copy of the
      pixels. */
  method ClearBelow(g: Grid, row: nat) returns (r: Grid)
    requires Rect(g)
    ensures r == ClearedBelow(g, row)
  {
    if row < |g| - 1 {
      var data := Load(g);
      forall i, j | row + 1 <= i < data.Length0 && 0 <= j < data.Length1 {
        data[i, j] := data[i, j].(a := 0);
      }
      r := Store(data);
    } else {
      r := g;
    }
    GridExt(r, ClearedBelow(g, row));
  }

  /** The flattening of the pipeline components: clear below the lowest
      opaque row of the band, and change nothing when the band holds no
      opaque pixel. */
  function PipelineFlattened(g: Grid): (r: Grid)
    requires Rect(g)
    ensures SameShape(r, g)
    ensures PipelineBottom(AlphaMask(g)).None? ==> r == g
    ensures PipelineBottom(AlphaMask(g)).Some? ==> r == ClearedBelow(g, OriginalBottom(AlphaMask(g)))
  {
    match PipelineBottom(AlphaMask(g))
    case Some(k) => ClearedBelow(g, k)
    case None => g
  }

  /** `body_bottom_row = rows[center_region].max()` and the row clearing
      below it, when the band holds an opaque pixel. */
  method FlattenInBand(g: Grid) returns (r: Grid)
    requires Rect(g)
    ensures r == PipelineFlattened(g)
  {
    var bottom := PipelineBottom(AlphaMask(g));
    if bottom.Some? {
      r := ClearBelow(g, bottom.value);
    } else {
      r := g;
    }
  }

  // ---------------------------------------------------------------------
  // Properties of flattening

  /** Clearing keeps the colour of every pixel and only ever lowers alpha to 0. */
  lemma ClearedKeepsColour(g: Grid, row: int, p: Pos)
    requires Rect(g) && InGrid(g, p)
    ensures SameColour(Px(ClearedBelow(g, row), p), Px(g, p))
    ensures Px(ClearedBelow(g, row), p).a == Px(g, p).a || Px(ClearedBelow(g, row), p).a == 0
  {
  }

  /** The opaque pixels after clearing are those of the input at or above
      the row. */
  lemma ClearedOpaque(g: Grid, row: int, p: Pos)
    requires Rect(g)
    ensures At(AlphaMask(ClearedBelow(g, row)), p) <==> At(AlphaMask(g), p) && p.row <= row
  {
  }

  /** After flattening at the original bottom row, that row is exactly the
      lowest opaque row of the image: nothing below it survives and the
      row itself keeps its opaque pixels. */
  lemma {:induction false} FlattenedBottomIsLowest(g: Grid)
    requires Rect(g) && AnyTrue(AlphaMask(g))
    ensures var r := ClearedBelow(g, OriginalBottom(AlphaMask(g)));
            AnyTrue(AlphaMask(r)) &&
            ContentBox(AlphaMask(r)).bottom - 1 == OriginalBottom(AlphaMask(g))
  {
    var m := AlphaMask(g);
    var k := OriginalBottom(m);
    var r := ClearedBelow(g, k);
    var rm := AlphaMask(r);
    var q :| At(m, q) && q.row == k;
    ClearedOpaque(g, k, q);
    assert At(rm, q);
    var b := ContentBox(rm);
    assert InBox(b, q);
    var q' :| At(rm, q') && q'.row == b.bottom - 1;
    ClearedOpaque(g, k, q');
  }
}
