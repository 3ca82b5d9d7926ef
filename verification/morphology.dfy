/** Binary dilation by an all-ones box (`scipy.ndimage.binary_dilation`
    with `structure=np.ones((n, n))` and the default border value 0), and
    the same dilation repeated. */
module Morphology {
  import opened Raster

  /** q lies in the box reaching `lo` cells above and left of p and `hi`
      cells below and right of it. An odd box of side n has lo == hi == n / 2;
      for an even side the default origin shifts the box one cell towards
      the bottom right, so a 20-wide box reaches 9 cells back and 10 ahead. */
  predicate InBox(p: Pos, q: Pos, lo: nat, hi: nat) {
    p.row - lo <= q.row <= p.row + hi && p.col - lo <= q.col <= p.col + hi
  }

  /** Some true cell of m lies in p's box. */
  ghost predicate NearTrue(m: Mask, p: Pos, lo: nat, hi: nat) {
    exists q :: At(m, q) && InBox(p, q, lo, hi)
  }

  /** A true cell of m lies in the box of the cell (i, j). */
  predicate BoxHit(m: Mask, i: int, j: int, lo: nat, hi: nat) {
    exists a, b | i - lo <= a <= i + hi && j - lo <= b <= j + hi :: At(m, Pos(a, b))
  }

  /** A cell of the result is true when a true cell of m lies in its box;
      cells outside the mask count as false. */
  function BoxDilate(m: Mask, lo: nat, hi: nat): (d: Mask)
    requires Rect(m)
    ensures SameShape(d, m)
    ensures forall p :: At(d, p) <==> InGrid(m, p) && NearTrue(m, p, lo, hi)
  {
    var d := seq(|m|, i requires 0 <= i < |m| => seq(Width(m), j => BoxHit(m, i, j, lo, hi)));
    assert forall i :: 0 <= i < |d| ==> |d[i]| == Width(m);
    d
  }

  /** Dilation never removes a true cell. */
  lemma DilateExtensive(m: Mask, lo: nat, hi: nat, p: Pos)
    requires Rect(m) && At(m, p)
    ensures At(BoxDilate(m, lo, hi), p)
  {
    assert InBox(p, p, lo, hi);
  }

  /** Dilation of a mask with no true cell has no true cell. */
  lemma DilateEmpty(m: Mask, lo: nat, hi: nat)
    requires Rect(m) && forall p :: !At(m, p)
    ensures forall p :: !At(BoxDilate(m, lo, hi), p)
  {
  }

  /** `for _ in range(k): a = binary_dilation(a, structure=np.ones((3, 3)))`. */
  function DilateRepeat(m: Mask, k: nat): (d: Mask)
    requires Rect(m)
    ensures SameShape(d, m)
  {
    if k == 0 then m else BoxDilate(DilateRepeat(m, k - 1), 1, 1)
  }

  /** A cell reached in k rounds lies within distance k of a true cell. */
  lemma {:induction false} DilateRepeatSound(m: Mask, k: nat, p: Pos)
    requires Rect(m) && At(DilateRepeat(m, k), p)
    ensures InGrid(m, p) && NearTrue(m, p, k, k)
  {
    if k == 0 {
      assert InBox(p, p, 0, 0);
    } else {
      var prev := DilateRepeat(m, k - 1);
      assert At(BoxDilate(prev, 1, 1), p);
      var r :| At(prev, r) && InBox(p, r, 1, 1);
      DilateRepeatSound(m, k - 1, r);
      var q :| At(m, q) && InBox(r, q, k - 1, k - 1);
      assert InBox(p, q, k, k);
    }
  }

  /** A cell within distance k of a true cell is reached in k rounds: step
      from it one cell towards that true cell, which stays in the grid. */
  lemma {:induction false} DilateRepeatComplete(m: Mask, k: nat, p: Pos, q: Pos)
    requires Rect(m) && InGrid(m, p) && At(m, q) && InBox(p, q, k, k)
    ensures At(DilateRepeat(m, k), p)
  {
    if k == 0 {
      assert p == q;
    } else {
      var prev := DilateRepeat(m, k - 1);
      var r := Pos(Toward(p.row, q.row), Toward(p.col, q.col));
      assert InBox(r, q, k - 1, k - 1) && InBox(p, r, 1, 1);
      DilateRepeatComplete(m, k - 1, r, q);
      assert At(prev, r);
      assert NearTrue(prev, p, 1, 1);
      assert At(BoxDilate(prev, 1, 1), p);
    }
  }

  /** k rounds of the 3x3 dilation reach exactly the cells within Chebyshev
      distance k of a true cell. */
  lemma DilateRepeatReach(m: Mask, k: nat, p: Pos)
    requires Rect(m)
    ensures At(DilateRepeat(m, k), p) <==> InGrid(m, p) && NearTrue(m, p, k, k)
  {
    if At(DilateRepeat(m, k), p) {
      DilateRepeatSound(m, k, p);
    }
    if InGrid(m, p) && NearTrue(m, p, k, k) {
      var q :| At(m, q) && InBox(p, q, k, k);
      DilateRepeatComplete(m, k, p, q);
    }
  }

  /** One step from x towards y. */
  function Toward(x: int, y: int): (z: int)
    ensures x < y ==> z == x + 1
    ensures x > y ==> z == x - 1
    ensures x == y ==> z == x
  {
    if x < y then x + 1 else if x > y then x - 1 else x
  }
}
