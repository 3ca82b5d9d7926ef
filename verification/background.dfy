/** The white-background pass shared by `make_white_transparent` and
    `transparent_background`: near-white regions that touch the image border
    become transparent unless at least 30 % of such a region lies within
    reach of the person. */
module Background {
  import opened Raster
  import opened Connectivity
  import opened Morphology

  /** The near-white threshold every caller uses. */
  const DefaultThreshold := 240
  /** A pixel with a colour channel below this level belongs to the person. */
  const PersonLevel := 245
  /** The person is dilated by a 20x20 box; with the default origin an even
      box reaches 9 cells back and 10 cells ahead. */
  const ReachBack := 9
  const ReachAhead := 10

  /** R, G and B all above the threshold. */
  predicate IsWhite(x: Pixel, t: int) {
    x.r > t && x.g > t && x.b > t
  }

  /** Some colour channel below 245. */
  predicate IsPerson(x: Pixel) {
    x.r < PersonLevel || x.g < PersonLevel || x.b < PersonLevel
  }

  function WhiteMask(g: Grid, t: int): (m: Mask)
    requires Rect(g)
    ensures SameShape(m, g)
    ensures forall p :: At(m, p) <==> InGrid(g, p) && IsWhite(Px(g, p), t)
  {
    seq(|g|, i requires 0 <= i < |g| => seq(Width(g), j requires 0 <= j < Width(g) => IsWhite(g[i][j], t)))
  }

  function PersonMask(g: Grid): (m: Mask)
    requires Rect(g)
    ensures SameShape(m, g)
    ensures forall p :: At(m, p) <==> InGrid(g, p) && IsPerson(Px(g, p))
  {
    seq(|g|, i requires 0 <= i < |g| => seq(Width(g), j requires 0 <= j < Width(g) => IsPerson(g[i][j])))
  }

  /** The protected area: the person mask dilated by the 20x20 box, or an
      empty mask when there is no person pixel at all. Either way a cell is
      protected exactly when a person pixel lies in its box. */
  function Protected(g: Grid): (m: Mask)
    requires Rect(g)
    ensures SameShape(m, g)
    ensures forall p :: At(m, p) <==> InGrid(g, p) && NearTrue(PersonMask(g), p, ReachBack, ReachAhead)
  {
    var person := PersonMask(g);
    if AnyTrue(person) then BoxDilate(person, ReachBack, ReachAhead) else ConstMask(|g|, Width(g), false)
  }

  /** The first and last row and column. */
  predicate OnBorder<T>(g: seq<seq<T>>, p: Pos) {
    InGrid(g, p) && (p.row == 0 || p.row == |g| - 1 || p.col == 0 || p.col == Width(g) - 1)
  }

  /** The labels met on the border, without the background label 0. */
  function EdgeLabels(labels: seq<seq<nat>>): (s: set<nat>)
    requires Rect(labels)
    ensures forall k :: k in s <==> k != 0 && exists p :: OnBorder(labels, p) && LabelAt(labels, p) == k
  {
    var s := set i, j | 0 <= i < |labels| && 0 <= j < Width(labels) &&
                        (i == 0 || i == |labels| - 1 || j == 0 || j == Width(labels) - 1) &&
                        labels[i][j] != 0 :: labels[i][j];
    forall k | k != 0 && exists p :: OnBorder(labels, p) && LabelAt(labels, p) == k ensures k in s {
      var p :| OnBorder(labels, p) && LabelAt(labels, p) == k;
      assert labels[p.row][p.col] == k;
    }
    forall k | k in s ensures exists p :: OnBorder(labels, p) && LabelAt(labels, p) == k {
      var i, j :| 0 <= i < |labels| && 0 <= j < Width(labels) &&
                  (i == 0 || i == |labels| - 1 || j == 0 || j == Width(labels) - 1) &&
                  labels[i][j] != 0 && labels[i][j] == k;
      assert OnBorder(labels, Pos(i, j)) && LabelAt(labels, Pos(i, j)) == k;
    }
    s
  }

  /** `labeled == label`. */
  function RegionMask(labels: seq<seq<nat>>, k: nat): (m: Mask)
    requires Rect(labels)
    ensures SameShape(m, labels)
    ensures forall p :: At(m, p) <==> InGrid(labels, p) && LabelAt(labels, p) == k
  {
    seq(|labels|, i requires 0 <= i < |labels| =>
      seq(Width(labels), j requires 0 <= j < Width(labels) => labels[i][j] == k))
  }

  /** `total > 0 and overlap / total < 0.3`, with overlap the region's
      protected cells, written in integers. */
  predicate MostlyUnprotected(region: Mask, protected: Mask)
    requires SameShape(region, protected)
  {
    var total := CountTrue(region);
    var overlap := CountTrue(MaskAnd(region, protected));
    total > 0 && 10 * overlap < 3 * total
  }

  // ---------------------------------------------------------------------
  // What the pass is meant to compute, stated without labels

  /** The cells of m connected to p. */
  ghost function ComponentMask(m: Mask, p: Pos): (c: Mask)
    requires Rect(m)
    ensures SameShape(c, m)
    ensures forall q :: At(c, q) <==> InGrid(m, q) && Connected(m, p, q)
  {
    seq(|m|, i requires 0 <= i < |m| => seq(Width(m), j => Connected(m, p, Pos(i, j))))
  }

  /** The component of p reaches the border. */
  ghost predicate TouchesBorder(m: Mask, p: Pos) {
    exists q :: OnBorder(m, q) && Connected(m, p, q)
  }

  /** p is background: a near-white pixel whose near-white component touches
      the border and lies less than 30 % in the protected area. */
  ghost predicate IsBackground(g: Grid, t: int, p: Pos)
    requires Rect(g)
  {
    var white := WhiteMask(g, t);
    At(white, p) && TouchesBorder(white, p) && MostlyUnprotected(ComponentMask(white, p), Protected(g))
  }

  // ---------------------------------------------------------------------
  // From labels to components

  /** The region of a white cell's label is the cell's component. */
  lemma RegionIsComponent(m: Mask, labels: seq<seq<nat>>, count: nat, p: Pos)
    requires IsLabelling(m, labels, count) && At(m, p)
    ensures RegionMask(labels, LabelAt(labels, p)) == ComponentMask(m, p)
  {
    var region := RegionMask(labels, LabelAt(labels, p));
    var comp := ComponentMask(m, p);
    forall q ensures At(region, q) == At(comp, q) {
      LabelIffConnected(m, labels, count, p, q);
      if Connected(m, p, q) {
        var path :| IsPath(m, path) && path[0] == p && path[|path| - 1] == q;
        assert At(m, path[|path| - 1]);
      }
    }
    MaskExt(region, comp);
  }

  /** A white cell's label is an edge label exactly when its component
      touches the border. */
  lemma EdgeLabelIffTouches(m: Mask, labels: seq<seq<nat>>, count: nat, p: Pos)
    requires IsLabelling(m, labels, count) && At(m, p)
    ensures LabelAt(labels, p) in EdgeLabels(labels) <==> TouchesBorder(m, p)
  {
    LabelIffConnected(m, labels, count, p, p);
    if LabelAt(labels, p) in EdgeLabels(labels) {
      var q :| OnBorder(labels, q) && LabelAt(labels, q) == LabelAt(labels, p);
      LabelIffConnected(m, labels, count, p, q);
      assert OnBorder(m, q);
    }
    if TouchesBorder(m, p) {
      var q :| OnBorder(m, q) && Connected(m, p, q);
      LabelIffConnected(m, labels, count, p, q);
      assert OnBorder(labels, q);
    }
  }

  /** The label-based test decides background exactly. */
  lemma BackgroundByLabels(g: Grid, t: int, labels: seq<seq<nat>>, count: nat, p: Pos)
    requires Rect(g) && IsLabelling(WhiteMask(g, t), labels, count)
    ensures IsBackground(g, t, p) <==>
              LabelAt(labels, p) in EdgeLabels(labels) &&
              MostlyUnprotected(RegionMask(labels, LabelAt(labels, p)), Protected(g))
  {
    var white := WhiteMask(g, t);
    if At(white, p) {
      EdgeLabelIffTouches(white, labels, count, p);
      RegionIsComponent(white, labels, count, p);
    } else if InGrid(white, p) {
      assert LabelAt(labels, p) == 0;
    }
  }

  // ---------------------------------------------------------------------
  // The pass

  /** Makes every background pixel transparent and leaves everything else,
      colour included, as it was. */
  method ClearBorderWhite(g: Grid, t: int) returns (out: Grid)
    requires Rect(g) && |g| > 0 && Width(g) > 0
    ensures SameShape(out, g)
    ensures forall p :: InGrid(g, p) ==>
              Px(out, p) == if IsBackground(g, t, p) then Px(g, p).(a := 0) else Px(g, p)
    ensures out == Cleared(g, t)
  {
    var white := WhiteMask(g, t);
    var labels, count := Label(white);
    var edge := EdgeLabels(labels);
    var protected := Protected(g);
    var bg := ConstMask(|g|, Width(g), false);
    var todo := edge;
    while todo != {}
      invariant todo <= edge && SameShape(bg, g)
      invariant forall p :: At(bg, p) <==>
                  LabelAt(labels, p) in edge - todo && MostlyUnprotected(RegionMask(labels, LabelAt(labels, p)), protected)
      decreases |todo|
    {
      var k :| k in todo;
      var region := RegionMask(labels, k);
      var overlap := CountTrue(MaskAnd(region, protected));
      var total := CountTrue(region);
      if total > 0 && 10 * overlap < 3 * total {
        bg := MaskOr(bg, region);
      }
      todo := todo - {k};
    }
    var data := Load(g);
    forall i, j | 0 <= i < data.Length0 && 0 <= j < data.Length1 && bg[i][j] {
      data[i, j] := data[i, j].(a := 0);
    }
    out := Store(data);
    forall p | InGrid(g, p)
      ensures Px(out, p) == if IsBackground(g, t, p) then Px(g, p).(a := 0) else Px(g, p)
    {
      BackgroundByLabels(g, t, labels, count, p);
      assert At(bg, p) == bg[p.row][p.col];
    }
    GridExt(out, Cleared(g, t));
  }

  /** The image with alpha 0 on every background pixel. */
  ghost function Cleared(g: Grid, t: int): (r: Grid)
    requires Rect(g)
    ensures SameShape(r, g)
    ensures forall p :: InGrid(g, p) ==>
              Px(r, p) == if IsBackground(g, t, p) then Px(g, p).(a := 0) else Px(g, p)
  {
    seq(|g|, i requires 0 <= i < |g| =>
      seq(Width(g), j requires 0 <= j < Width(g) =>
        if IsBackground(g, t, Pos(i, j)) then g[i][j].(a := 0) else g[i][j]))
  }

  // ---------------------------------------------------------------------
  // Properties of the pass

  /** Being background depends on colour only, so a second pass over the
      result clears exactly the same pixels: the pass is idempotent. */
  lemma BackgroundIgnoresAlpha(g: Grid, h: Grid, t: int, p: Pos)
    requires SameShape(g, h)
    requires forall q :: InGrid(g, q) ==> SameColour(Px(g, q), Px(h, q))
    ensures IsBackground(g, t, p) == IsBackground(h, t, p)
  {
    MaskExt(WhiteMask(g, t), WhiteMask(h, t));
    MaskExt(PersonMask(g), PersonMask(h));
    MaskExt(Protected(g), Protected(h));
  }

  /** The pass never changes a colour channel, and alpha only ever drops
      to 0. */
  lemma ClearedKeepsColour(g: Grid, t: int, p: Pos)
    requires Rect(g) && InGrid(g, p)
    ensures SameColour(Px(Cleared(g, t), p), Px(g, p))
    ensures Px(Cleared(g, t), p).a == Px(g, p).a || Px(Cleared(g, t), p).a == 0
  {
  }

  /** A second pass over the result changes nothing. */
  lemma ClearedIdempotent(g: Grid, t: int)
    requires Rect(g)
    ensures Cleared(Cleared(g, t), t) == Cleared(g, t)
  {
    var once := Cleared(g, t);
    var twice := Cleared(once, t);
    forall p | InGrid(once, p) ensures Px(twice, p) == Px(once, p) {
      BackgroundIgnoresAlpha(g, once, t, p);
    }
    GridExt(twice, once);
  }

  /** A near-white component is cleared as a whole or not at all. */
  lemma BackgroundWholeComponent(g: Grid, t: int, p: Pos, q: Pos)
    requires Rect(g) && IsBackground(g, t, p) && Connected(WhiteMask(g, t), p, q)
    ensures IsBackground(g, t, q)
  {
    var white := WhiteMask(g, t);
    var b :| OnBorder(white, b) && Connected(white, p, b);
    ConnectedSym(white, p, q);
    ConnectedTrans(white, q, p, b);
    forall r ensures At(ComponentMask(white, p), r) == At(ComponentMask(white, q), r) {
      if Connected(white, p, r) {
        ConnectedTrans(white, q, p, r);
      }
      if Connected(white, q, r) {
        ConnectedTrans(white, p, q, r);
      }
    }
    MaskExt(ComponentMask(white, p), ComponentMask(white, q));
    var path :| IsPath(white, path) && path[0] == p && path[|path| - 1] == q;
    assert At(white, path[|path| - 1]);
  }

  /** Only near-white pixels are ever cleared. */
  lemma BackgroundIsWhite(g: Grid, t: int, p: Pos)
    requires Rect(g) && IsBackground(g, t, p)
    ensures InGrid(g, p) && IsWhite(Px(g, p), t)
  {
  }

  /** With no person pixel anywhere, every near-white component that
      touches the border is background. */
  lemma {:induction false} NoPersonClearsBorderWhite(g: Grid, t: int, p: Pos)
    requires Rect(g) && forall q :: InGrid(g, q) ==> !IsPerson(Px(g, q))
    requires At(WhiteMask(g, t), p) && TouchesBorder(WhiteMask(g, t), p)
    ensures IsBackground(g, t, p)
  {
    var white := WhiteMask(g, t);
    var comp := ComponentMask(white, p);
    ConnectedRefl(white, p);
    CountTruePositive(comp, p);
    CountTrueZero(MaskAnd(comp, Protected(g)));
  }

  /** A picture made only of pixels that are near-white and not person
      colours (every channel at least 245 and above the threshold) becomes
      entirely transparent: every pixel is background. */
  lemma {:induction false} AllWhiteAllCleared(g: Grid, t: int, p: Pos)
    requires Rect(g) && InGrid(g, p)
    requires forall q :: InGrid(g, q) ==> IsWhite(Px(g, q), t) && !IsPerson(Px(g, q))
    ensures IsBackground(g, t, p)
  {
    var white := WhiteMask(g, t);
    var path := seq(p.row + 1, k => Pos(p.row - k, p.col));
    assert IsPath(white, path);
    assert OnBorder(white, path[|path| - 1]);
    NoPersonClearsBorderWhite(g, t, p);
  }
}
