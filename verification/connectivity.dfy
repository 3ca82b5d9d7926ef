/** 4-connected components of a mask, and the labelling that numbers them
    (the semantics of `scipy.ndimage.label` with its default cross-shaped
    structure), computed by a worklist flood fill. */
module Connectivity {
  import opened Raster

  /** Horizontal or vertical neighbours. */
  predicate Adjacent(p: Pos, q: Pos) {
    (p.row == q.row && (p.col == q.col + 1 || q.col == p.col + 1)) ||
    (p.col == q.col && (p.row == q.row + 1 || q.row == p.row + 1))
  }

  /** A walk through true cells of m, one 4-neighbour step at a time. */
  ghost predicate IsPath(m: Mask, path: seq<Pos>) {
    |path| > 0 &&
    (forall k :: 0 <= k < |path| ==> At(m, path[k])) &&
    (forall k :: 0 <= k < |path| - 1 ==> Adjacent(path[k], path[k + 1]))
  }

  /** p and q lie in the same 4-connected component of m. */
  ghost predicate Connected(m: Mask, p: Pos, q: Pos) {
    exists path :: IsPath(m, path) && path[0] == p && path[|path| - 1] == q
  }

  lemma ConnectedRefl(m: Mask, p: Pos)
    requires At(m, p)
    ensures Connected(m, p, p)
  {
    assert IsPath(m, [p]);
  }

  /** Extending a walk by one step. */
  lemma ConnectedStep(m: Mask, p: Pos, q: Pos, r: Pos)
    requires Connected(m, p, q) && Adjacent(q, r) && At(m, r)
    ensures Connected(m, p, r)
  {
    var path :| IsPath(m, path) && path[0] == p && path[|path| - 1] == q;
    var longer := path + [r];
    assert IsPath(m, longer);
    assert longer[0] == p && longer[|longer| - 1] == r;
  }

  lemma ConnectedSym(m: Mask, p: Pos, q: Pos)
    requires Connected(m, p, q)
    ensures Connected(m, q, p)
  {
    var path :| IsPath(m, path) && path[0] == p && path[|path| - 1] == q;
    var back := Reverse(path);
    forall k | 0 <= k < |back| - 1 ensures Adjacent(back[k], back[k + 1]) {
      assert back[k] == path[|path| - 1 - k];
      assert back[k + 1] == path[|path| - 1 - k - 1];
    }
    assert IsPath(m, back);
  }

  lemma ConnectedTrans(m: Mask, p: Pos, q: Pos, r: Pos)
    requires Connected(m, p, q) && Connected(m, q, r)
    ensures Connected(m, p, r)
  {
    var path1 :| IsPath(m, path1) && path1[0] == p && path1[|path1| - 1] == q;
    var path2 :| IsPath(m, path2) && path2[0] == q && path2[|path2| - 1] == r;
    var joined := path1 + path2[1..];
    forall k | 0 <= k < |joined| - 1 ensures Adjacent(joined[k], joined[k + 1]) {
      if k < |path1| - 1 {
      } else if k == |path1| - 1 {
        assert joined[k] == path2[0] && joined[k + 1] == path2[1];
      } else {
        assert joined[k] == path2[k - |path1| + 1] && joined[k + 1] == path2[k - |path1| + 2];
      }
    }
    assert IsPath(m, joined);
  }

  // ---------------------------------------------------------------------
  // Labellings

  /** The label stored at p; positions outside read as 0 (background). */
  function LabelAt(labels: seq<seq<nat>>, p: Pos): nat {
    if 0 <= p.row < |labels| && 0 <= p.col < |labels[p.row]| then labels[p.row][p.col] else 0
  }

  /** What `ndimage.label` promises: background cells get 0, cells of one
      component share one positive label, and cells of different components
      get different labels, all within 1..count. */
  ghost predicate IsLabelling(m: Mask, labels: seq<seq<nat>>, count: nat) {
    SameShape(labels, m) &&
    (forall p :: InGrid(m, p) ==> (LabelAt(labels, p) == 0 <==> !At(m, p))) &&
    (forall p :: LabelAt(labels, p) <= count) &&
    (forall p, q :: At(m, p) && At(m, q) && Adjacent(p, q) ==> LabelAt(labels, p) == LabelAt(labels, q)) &&
    (forall p, q :: LabelAt(labels, p) != 0 && LabelAt(labels, p) == LabelAt(labels, q) ==> Connected(m, p, q))
  }

  /** Labels characterise components exactly: two true cells share a label
      if and only if they are connected. */
  lemma {:induction false} LabelIffConnected(m: Mask, labels: seq<seq<nat>>, count: nat, p: Pos, q: Pos)
    requires IsLabelling(m, labels, count)
    requires At(m, p)
    ensures LabelAt(labels, p) != 0
    ensures LabelAt(labels, p) == LabelAt(labels, q) <==> Connected(m, p, q)
  {
    assert InGrid(m, p);
    if Connected(m, p, q) {
      var path :| IsPath(m, path) && path[0] == p && path[|path| - 1] == q;
      var k := 0;
      while k < |path| - 1
        invariant 0 <= k < |path|
        invariant LabelAt(labels, path[k]) == LabelAt(labels, p)
      {
        assert Adjacent(path[k], path[k + 1]) && At(m, path[k]) && At(m, path[k + 1]);
        k := k + 1;
      }
    }
  }

  // ---------------------------------------------------------------------
  // The flood fill

  /** The labels with the cell p set to l. */
  function SetLabel(labs: seq<seq<nat>>, p: Pos, l: nat): (r: seq<seq<nat>>)
    requires Rect(labs) && InGrid(labs, p)
    ensures SameShape(r, labs)
    ensures forall x :: LabelAt(r, x) == if x == p then l else LabelAt(labs, x)
  {
    var row: seq<nat> := labs[p.row][p.col := l];
    labs[p.row := row]
  }

  /** Every white neighbour of p carries p's label. */
  ghost predicate NeighboursShare(m: Mask, labs: seq<seq<nat>>, p: Pos) {
    forall q :: Adjacent(p, q) && At(m, q) ==> LabelAt(labs, q) == LabelAt(labs, p)
  }

  lemma NeighbourCases(p: Pos, q: Pos)
    requires Adjacent(p, q)
    ensures q == Pos(p.row - 1, p.col) || q == Pos(p.row + 1, p.col) ||
            q == Pos(p.row, p.col - 1) || q == Pos(p.row, p.col + 1)
  {
  }

  /** p's four neighbours, white ones labelled like p, make p closed. */
  lemma AroundShare(m: Mask, labs: seq<seq<nat>>, p: Pos, around: seq<Pos>)
    requires around == [Pos(p.row - 1, p.col), Pos(p.row + 1, p.col), Pos(p.row, p.col - 1), Pos(p.row, p.col + 1)]
    requires forall j :: 0 <= j < 4 && At(m, around[j]) ==> LabelAt(labs, around[j]) == LabelAt(labs, p)
    ensures NeighboursShare(m, labs, p)
  {
    forall q | Adjacent(p, q) && At(m, q) ensures LabelAt(labs, q) == LabelAt(labs, p) {
      NeighbourCases(p, q);
      assert q == around[0] || q == around[1] || q == around[2] || q == around[3];
    }
  }

  /** A labelled cell is reachable from the seed of its label. */
  ghost predicate Rooted(m: Mask, labs: seq<seq<nat>>, seeds: seq<Pos>, p: Pos) {
    0 < LabelAt(labs, p) <= |seeds| ==> Connected(m, seeds[LabelAt(labs, p) - 1], p)
  }

  /** The invariant shared by the scan and the fill: labels sit only on white
      cells, every labelled cell is reachable from the seed of its label, and
      every labelled cell that is not waiting on the worklist has all its white
      neighbours labelled alike. */
  ghost predicate Partial(m: Mask, labs: seq<seq<nat>>, seeds: seq<Pos>, pending: seq<Pos>) {
    SameShape(labs, m) &&
    (forall p :: LabelAt(labs, p) != 0 ==> At(m, p) && LabelAt(labs, p) <= |seeds|) &&
    (forall p :: Rooted(m, labs, seeds, p)) &&
    (forall p {:trigger NeighboursShare(m, labs, p)} :: LabelAt(labs, p) != 0 && p !in pending ==> NeighboursShare(m, labs, p))
  }

  /** Labelling one more white cell, reachable from the seed of its label,
      keeps the invariant once the cell joins the worklist. */
  lemma LabelCell(m: Mask, labs: seq<seq<nat>>, seeds: seq<Pos>, pending: seq<Pos>, q: Pos, l: nat)
    requires Partial(m, labs, seeds, pending)
    requires At(m, q) && LabelAt(labs, q) == 0
    requires |seeds| == l > 0 && Connected(m, seeds[l - 1], q)
    ensures InGrid(labs, q)
    ensures Partial(m, SetLabel(labs, q, l), seeds, pending + [q])
  {
    var r := SetLabel(labs, q, l);
    forall x ensures Rooted(m, r, seeds, x) {
      assert Rooted(m, labs, seeds, x);
    }
    forall x | LabelAt(r, x) != 0 && x !in pending + [q] ensures NeighboursShare(m, r, x) {
      assert NeighboursShare(m, labs, x);
    }
  }

  /** A cell of the worklist stays pending only as long as needed. */
  lemma PendingWeaken(m: Mask, labs: seq<seq<nat>>, seeds: seq<Pos>, pending: seq<Pos>, pending': seq<Pos>)
    requires Partial(m, labs, seeds, pending)
    requires forall x :: x in pending ==> x in pending' || NeighboursShare(m, labs, x)
    ensures Partial(m, labs, seeds, pending')
  {
  }

  /** While the fill of label l runs, a labelled white neighbour of a cell
      labelled l carries l too: older components are closed. */
  lemma NoForeignNeighbour(m: Mask, labs: seq<seq<nat>>, seeds: seq<Pos>, pending: seq<Pos>, p: Pos, q: Pos, l: nat)
    requires Partial(m, labs, seeds, pending)
    requires forall x :: x in pending ==> LabelAt(labs, x) == l
    requires l != 0 && LabelAt(labs, p) == l && Adjacent(p, q) && LabelAt(labs, q) != 0
    ensures LabelAt(labs, q) == l
  {
    if q !in pending {
      assert NeighboursShare(m, labs, q);
      assert Adjacent(q, p) && At(m, p);
    }
  }

  /** One neighbour q of the popped cell p: label and push it when it is an
      unlabelled white cell. Afterwards q carries p's label if it is white. */
  method Visit(m: Mask, labs: seq<seq<nat>>, l: nat, ghost seeds: seq<Pos>, p: Pos, q: Pos,
               stack: seq<Pos>, ghost remaining: set<Pos>)
    returns (labs': seq<seq<nat>>, stack': seq<Pos>, ghost remaining': set<Pos>)
    requires Partial(m, labs, seeds, stack + [p])
    requires |seeds| == l > 0 && LabelAt(labs, p) == l && Adjacent(p, q)
    requires forall x :: x in stack ==> LabelAt(labs, x) == l
    requires forall x :: x in remaining <==> At(m, x) && LabelAt(labs, x) == 0
    ensures Partial(m, labs', seeds, stack' + [p])
    ensures LabelAt(labs', p) == l && (At(m, q) ==> LabelAt(labs', q) == l)
    ensures forall x :: x in stack' ==> LabelAt(labs', x) == l
    ensures forall x :: x in remaining' <==> At(m, x) && LabelAt(labs', x) == 0
    ensures |remaining'| < |remaining| || (stack' == stack && remaining' == remaining)
    ensures forall x :: LabelAt(labs', x) != LabelAt(labs, x) ==> LabelAt(labs, x) == 0 && LabelAt(labs', x) == l
  {
    if At(m, q) && LabelAt(labs, q) == 0 {
      assert Rooted(m, labs, seeds, p);
      ConnectedStep(m, seeds[l - 1], p, q);
      LabelCell(m, labs, seeds, stack + [p], q, l);
      labs' := SetLabel(labs, q, l);
      stack' := stack + [q];
      remaining' := remaining - {q};
      assert q in remaining;
      PendingWeaken(m, labs', seeds, stack + [p] + [q], stack' + [p]);
    } else {
      labs', stack', remaining' := labs, stack, remaining;
      if At(m, q) {
        NoForeignNeighbour(m, labs, seeds, stack + [p], p, q, l);
      }
    }
  }

  /** Visits the four neighbours of the popped cell p; afterwards p no
      longer needs to wait on the worklist. */
  method Expand(m: Mask, labs: seq<seq<nat>>, l: nat, ghost seeds: seq<Pos>, p: Pos,
                stack: seq<Pos>, ghost remaining: set<Pos>)
    returns (labs': seq<seq<nat>>, stack': seq<Pos>, ghost remaining': set<Pos>)
    requires Partial(m, labs, seeds, stack + [p])
    requires |seeds| == l > 0 && LabelAt(labs, p) == l
    requires forall x :: x in stack ==> LabelAt(labs, x) == l
    requires forall x :: x in remaining <==> At(m, x) && LabelAt(labs, x) == 0
    ensures Partial(m, labs', seeds, stack')
    ensures forall x :: x in stack' ==> LabelAt(labs', x) == l
    ensures forall x :: x in remaining' <==> At(m, x) && LabelAt(labs', x) == 0
    ensures |remaining'| < |remaining| || (stack' == stack && remaining' == remaining)
    ensures forall x :: LabelAt(labs', x) != LabelAt(labs, x) ==> LabelAt(labs, x) == 0 && LabelAt(labs', x) == l
  {
    var around := [Pos(p.row - 1, p.col), Pos(p.row + 1, p.col), Pos(p.row, p.col - 1), Pos(p.row, p.col + 1)];
    labs', stack', remaining' := labs, stack, remaining;
    for k := 0 to 4
      invariant Partial(m, labs', seeds, stack' + [p]) && LabelAt(labs', p) == l
      invariant forall x :: x in stack' ==> LabelAt(labs', x) == l
      invariant forall x :: x in remaining' <==> At(m, x) && LabelAt(labs', x) == 0
      invariant |remaining'| < |remaining| || (stack' == stack && remaining' == remaining)
      invariant forall x :: LabelAt(labs', x) != LabelAt(labs, x) ==> LabelAt(labs, x) == 0 && LabelAt(labs', x) == l
      invariant forall j :: 0 <= j < k && At(m, around[j]) ==> LabelAt(labs', around[j]) == l
    {
      labs', stack', remaining' := Visit(m, labs', l, seeds, p, around[k], stack', remaining');
    }
    AroundShare(m, labs', p, around);
    PendingWeaken(m, labs', seeds, stack' + [p], stack');
  }

  /** Labels every cell of the component of `seed` with the fresh label `l`. */
  method Fill(m: Mask, labs: seq<seq<nat>>, seed: Pos, l: nat, ghost seeds: seq<Pos>, ghost unlabelled: set<Pos>)
    returns (labs': seq<seq<nat>>, ghost remaining: set<Pos>)
    requires Partial(m, labs, seeds, [])
    requires |seeds| == l > 0 && seeds[l - 1] == seed && At(m, seed) && LabelAt(labs, seed) == 0
    requires forall p :: LabelAt(labs, p) < l
    requires forall p :: p in unlabelled <==> At(m, p) && LabelAt(labs, p) == 0
    ensures Partial(m, labs', seeds, [])
    ensures forall p :: p in remaining <==> At(m, p) && LabelAt(labs', p) == 0
    ensures LabelAt(labs', seed) == l
    ensures forall p :: LabelAt(labs, p) != 0 ==> LabelAt(labs', p) == LabelAt(labs, p)
  {
    ConnectedRefl(m, seed);
    LabelCell(m, labs, seeds, [], seed, l);
    labs' := SetLabel(labs, seed, l);
    remaining := unlabelled - {seed};
    var stack := [seed];
    while stack != []
      invariant Partial(m, labs', seeds, stack)
      invariant forall p :: p in stack ==> LabelAt(labs', p) == l
      invariant forall p :: p in remaining <==> At(m, p) && LabelAt(labs', p) == 0
      invariant LabelAt(labs', seed) == l
      invariant forall p :: LabelAt(labs', p) != LabelAt(labs, p) ==> LabelAt(labs, p) == 0 && LabelAt(labs', p) == l
      decreases |remaining|, |stack|
    {
      ghost var whole := stack;
      var p := stack[|stack| - 1];
      stack := stack[..|stack| - 1];
      assert stack + [p] == whole;
      labs', stack, remaining := Expand(m, labs', l, seeds, p, stack, remaining);
    }
  }

  /** Adding a seed for a new label keeps the invariant. */
  lemma PartialExtend(m: Mask, labs: seq<seq<nat>>, seeds: seq<Pos>, s: Pos)
    requires Partial(m, labs, seeds, [])
    ensures Partial(m, labs, seeds + [s], [])
  {
    forall x ensures Rooted(m, labs, seeds + [s], x) {
      assert Rooted(m, labs, seeds, x);
    }
  }

  /** Once every white cell is labelled and nothing is pending, the labels
      form a labelling. */
  lemma LabellingFromPartial(m: Mask, labs: seq<seq<nat>>, seeds: seq<Pos>)
    requires Partial(m, labs, seeds, [])
    requires forall p :: At(m, p) ==> LabelAt(labs, p) != 0
    ensures IsLabelling(m, labs, |seeds|)
  {
    forall p, q | At(m, p) && At(m, q) && Adjacent(p, q) ensures LabelAt(labs, p) == LabelAt(labs, q) {
      assert NeighboursShare(m, labs, p);
    }
    forall p, q | LabelAt(labs, p) != 0 && LabelAt(labs, p) == LabelAt(labs, q) ensures Connected(m, p, q) {
      assert Rooted(m, labs, seeds, p) && Rooted(m, labs, seeds, q);
      var s := seeds[LabelAt(labs, p) - 1];
      ConnectedSym(m, s, p);
      ConnectedTrans(m, p, s, q);
    }
  }

  /** `ndimage.label(mask)` with the cross-shaped structure: numbers the
      4-connected components of the true cells 1..count, in raster order of
      their first cell. */
  method Label(m: Mask) returns (labels: seq<seq<nat>>, count: nat)
    requires Rect(m)
    ensures IsLabelling(m, labels, count)
  {
    var zero: seq<nat> := seq(Width(m), j => 0);
    labels := seq(|m|, i => zero);
    count := 0;
    ghost var seeds: seq<Pos> := [];
    ghost var remaining := set i, j | 0 <= i < |m| && 0 <= j < Width(m) && m[i][j] :: Pos(i, j);
    forall p ensures p in remaining <==> At(m, p) && LabelAt(labels, p) == 0 {
      if At(m, p) {
        assert p == Pos(p.row, p.col);
      }
    }
    for i := 0 to |m|
      invariant Partial(m, labels, seeds, []) && |seeds| == count
      invariant forall p :: p in remaining <==> At(m, p) && LabelAt(labels, p) == 0
      invariant forall p :: At(m, p) && p.row < i ==> LabelAt(labels, p) != 0
    {
      for j := 0 to Width(m)
        invariant Partial(m, labels, seeds, []) && |seeds| == count
        invariant forall p :: p in remaining <==> At(m, p) && LabelAt(labels, p) == 0
        invariant forall p :: At(m, p) && (p.row < i || (p.row == i && p.col < j)) ==> LabelAt(labels, p) != 0
      {
        if m[i][j] && LabelAt(labels, Pos(i, j)) == 0 {
          PartialExtend(m, labels, seeds, Pos(i, j));
          seeds := seeds + [Pos(i, j)];
          count := count + 1;
          labels, remaining := Fill(m, labels, Pos(i, j), count, seeds, remaining);
        }
      }
    }
    LabellingFromPartial(m, labels, seeds);
  }
}
