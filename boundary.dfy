/** The five boundary-ring policies. A policy overwrites the outer ring of a field
    from the cells just inside it; corners get the mean of their two neighbouring
    edge cells, taken after the edges are set. */
module Boundary {
  import opened FluidGrid

  /** The policies a caller selects (the five filled slots of the dispatch table). */
  datatype Policy = NN | NoStickU | NoStickV | ReflectU | ReflectV

  /** What a non-corner ring cell receives from its inward neighbour. */
  datatype EdgeRule = Copy | Zero | Negate

  /** Rule on the side walls i = 0 and i = ni-1, the walls perpendicular to u. */
  function SideRule(p: Policy): EdgeRule {
    match p
    case NoStickU => Zero
    case ReflectU => Negate
    case _ => Copy
  }

  /** Rule on the walls j = 0 and j = nj-1, the walls perpendicular to v. */
  function CapRule(p: Policy): EdgeRule {
    match p
    case NoStickV => Zero
    case ReflectV => Negate
    case _ => Copy
  }

  function Apply(r: EdgeRule, x: real): real {
    match r
    case Copy => x
    case Zero => 0.0
    case Negate => -x
  }

  /** Ring cells that are not corners. */
  predicate OnEdge(g: Grid, i: int, j: int) {
    || (1 <= i <= g.ni - 2 && (j == 0 || j == g.nj - 1))
    || (1 <= j <= g.nj - 2 && (i == 0 || i == g.ni - 1))
  }

  /** New value of a non-corner ring cell, from the interior cell next to it. */
  function EdgeValue(g: Grid, p: Policy, s: seq<real>, i: int, j: int): real
    requires g.Valid() && |s| == g.Size() && OnEdge(g, i, j)
  {
    if j == 0 then Apply(CapRule(p), s[g.Idx(i, 1)])
    else if j == g.nj - 1 then Apply(CapRule(p), s[g.Idx(i, g.nj - 2)])
    else if i == 0 then Apply(SideRule(p), s[g.Idx(1, j)])
    else Apply(SideRule(p), s[g.Idx(g.ni - 2, j)])
  }

  /** New value of cell (i, j): interior cells keep their value, edge cells follow the
      policy, a corner is the mean of the edge cell beside it in its column and the
      one beside it in its row. */
  function BoundedAt(g: Grid, p: Policy, s: seq<real>, i: int, j: int): real
    requires g.Valid() && |s| == g.Size()
    requires 0 <= i < g.ni && 0 <= j < g.nj
  {
    if g.Interior(i, j) then s[g.Idx(i, j)]
    else if OnEdge(g, i, j) then EdgeValue(g, p, s, i, j)
    else
      var ci := if i == 0 then 1 else g.ni - 2;
      var cj := if j == 0 then 1 else g.nj - 2;
      0.5 * (EdgeValue(g, p, s, i, cj) + EdgeValue(g, p, s, ci, j))
  }

  /** The field after the policy has run over it. */
  function WithBoundary(g: Grid, p: Policy, s: seq<real>): (r: seq<real>)
    requires g.Valid() && |s| == g.Size()
    ensures |r| == |s|
  {
    seq(|s|, k requires 0 <= k < |s| => BoundedAt(g, p, s, g.Col(k), g.Row(k)))
  }

  /** Reading cell (i, j) of the bounded field. */
  lemma WithBoundaryAt(g: Grid, p: Policy, s: seq<real>, i: int, j: int)
    requires g.Valid() && |s| == g.Size()
    requires 0 <= i < g.ni && 0 <= j < g.nj
    ensures WithBoundary(g, p, s)[g.Idx(i, j)] == BoundedAt(g, p, s, i, j)
  {
  }

  /** A field that agrees with BoundedAt on every cell is the bounded field. */
  lemma WithBoundaryFromCells(g: Grid, p: Policy, s: seq<real>, t: seq<real>)
    requires g.Valid() && |s| == g.Size() && |t| == g.Size()
    requires forall i, j :: 0 <= i < g.ni && 0 <= j < g.nj ==>
      t[g.Idx(i, j)] == BoundedAt(g, p, s, i, j)
    ensures t == WithBoundary(g, p, s)
  {
    forall k | 0 <= k < |t|
      ensures t[k] == WithBoundary(g, p, s)[k]
    {
      IdxOfCell(g, k);
    }
  }

  /** What the edge loops leave behind: non-corner ring cells hold their policy
      value, every other cell still holds its value from s. */
  predicate EdgesSet(g: Grid, p: Policy, s: seq<real>, e: seq<real>)
    requires g.Valid() && |s| == |e| == g.Size()
  {
    forall a, b :: 0 <= a < g.ni && 0 <= b < g.nj ==>
      e[g.Idx(a, b)] == if OnEdge(g, a, b) then EdgeValue(g, p, s, a, b) else s[g.Idx(a, b)]
  }

  /** The corner stage of every handler: each corner becomes the mean of the edge
      cell beside it in its column and the one beside it in its row, read from e. */
  function WithCorners(g: Grid, e: seq<real>): (t: seq<real>)
    requires g.Valid() && |e| == g.Size()
    ensures |t| == |e|
  {
    var last, top := g.ni - 1, g.nj - 1;
    e[g.Idx(0, 0) := 0.5 * (e[g.Idx(0, 1)] + e[g.Idx(1, 0)])]
     [g.Idx(last, 0) := 0.5 * (e[g.Idx(last, 1)] + e[g.Idx(last - 1, 0)])]
     [g.Idx(0, top) := 0.5 * (e[g.Idx(0, top - 1)] + e[g.Idx(1, top)])]
     [g.Idx(last, top) := 0.5 * (e[g.Idx(last - 1, top)] + e[g.Idx(last, top - 1)])]
  }

  /** The edge stage followed by the corner stage is the policy's bounded field. */
  lemma CornersCompleteBoundary(g: Grid, p: Policy, s: seq<real>, e: seq<real>)
    requires g.Valid() && |s| == |e| == g.Size()
    requires EdgesSet(g, p, s, e)
    ensures WithCorners(g, e) == WithBoundary(g, p, s)
  {
    forall a, b | 0 <= a < g.ni && 0 <= b < g.nj
      ensures WithCorners(g, e)[g.Idx(a, b)] == BoundedAt(g, p, s, a, b)
    {
      CornersCompleteAt(g, p, s, e, a, b);
    }
    WithBoundaryFromCells(g, p, s, WithCorners(g, e));
  }

  lemma CornersCompleteAt(g: Grid, p: Policy, s: seq<real>, e: seq<real>, a: int, b: int)
    requires g.Valid() && |s| == |e| == g.Size()
    requires EdgesSet(g, p, s, e)
    requires 0 <= a < g.ni && 0 <= b < g.nj
    ensures WithCorners(g, e)[g.Idx(a, b)] == BoundedAt(g, p, s, a, b)
  {
    var last, top := g.ni - 1, g.nj - 1;
    if (a == 0 || a == last) && (b == 0 || b == top) {
      var ci := if a == 0 then 1 else g.ni - 2;
      var cj := if b == 0 then 1 else g.nj - 2;
      CornerRead(g, e, a, b);
      CornerNeighbours(g, p, s, e, a, cj, ci, b);
      assert BoundedAt(g, p, s, a, b) == 0.5 * (EdgeValue(g, p, s, a, cj) + EdgeValue(g, p, s, ci, b));
    } else {
      CornerDistinct(g, a, b);
      assert e[g.Idx(a, b)] == BoundedAt(g, p, s, a, b);
    }
  }

  /** The value the corner stage writes into corner (a, b). */
  lemma CornerRead(g: Grid, e: seq<real>, a: int, b: int)
    requires g.Valid() && |e| == g.Size()
    requires (a == 0 || a == g.ni - 1) && (b == 0 || b == g.nj - 1)
    ensures var ci, cj := (if a == 0 then 1 else g.ni - 2), (if b == 0 then 1 else g.nj - 2);
      WithCorners(g, e)[g.Idx(a, b)] == 0.5 * (e[g.Idx(a, cj)] + e[g.Idx(ci, b)])
  {
    var last, top := g.ni - 1, g.nj - 1;
    MulMonotone(g.ni, 2, top);
    assert g.Idx(0, 0) == 0 && g.Idx(last, 0) == last;
    assert g.Idx(0, top) == g.ni * top && g.Idx(last, top) == g.ni * top + last;
  }

  /** A cell that is not a corner keeps its value through the corner stage. */
  lemma CornerDistinct(g: Grid, a: int, b: int)
    requires g.Valid() && 0 <= a < g.ni && 0 <= b < g.nj
    requires !((a == 0 || a == g.ni - 1) && (b == 0 || b == g.nj - 1))
    ensures forall e: seq<real> {:trigger WithCorners(g, e)} :: |e| == g.Size() ==>
      WithCorners(g, e)[g.Idx(a, b)] == e[g.Idx(a, b)]
  {
    var last, top := g.ni - 1, g.nj - 1;
    var k := g.Idx(a, b);
    assert k != g.Idx(0, 0) && k != g.Idx(last, 0) && k != g.Idx(0, top) && k != g.Idx(last, top);
  }

  /** The two edge cells a corner reads hold their policy values. */
  lemma CornerNeighbours(g: Grid, p: Policy, s: seq<real>, e: seq<real>, a1: int, b1: int, a2: int, b2: int)
    requires g.Valid() && |s| == |e| == g.Size()
    requires EdgesSet(g, p, s, e)
    requires 0 <= a1 < g.ni && 0 <= b1 < g.nj && OnEdge(g, a1, b1)
    requires 0 <= a2 < g.ni && 0 <= b2 < g.nj && OnEdge(g, a2, b2)
    ensures e[g.Idx(a1, b1)] == EdgeValue(g, p, s, a1, b1)
    ensures e[g.Idx(a2, b2)] == EdgeValue(g, p, s, a2, b2)
  {
  }

  /** Every policy writes the ring only. */
  lemma BoundaryKeepsInterior(g: Grid, p: Policy, s: seq<real>)
    requires g.Valid() && |s| == g.Size()
    ensures forall k :: 0 <= k < |s| && g.Interior(g.Col(k), g.Row(k)) ==>
      WithBoundary(g, p, s)[k] == s[k]
  {
    forall k | 0 <= k < |s| && g.Interior(g.Col(k), g.Row(k))
      ensures WithBoundary(g, p, s)[k] == s[k]
    {
      IdxOfCell(g, k);
    }
  }

  /** The ring is a function of the interior alone, so a second application of the
      same policy changes nothing. */
  lemma BoundaryIdempotent(g: Grid, p: Policy, s: seq<real>)
    requires g.Valid() && |s| == g.Size()
    ensures WithBoundary(g, p, WithBoundary(g, p, s)) == WithBoundary(g, p, s)
  {
    var t := WithBoundary(g, p, s);
    forall i, j | g.Interior(i, j)
      ensures t[g.Idx(i, j)] == s[g.Idx(i, j)]
    {
      WithBoundaryAt(g, p, s, i, j);
    }
    forall i, j | OnEdge(g, i, j)
      ensures EdgeValue(g, p, t, i, j) == EdgeValue(g, p, s, i, j)
    {
    }
    forall k | 0 <= k < |t|
      ensures WithBoundary(g, p, t)[k] == t[k]
    {
      IdxOfCell(g, k);
    }
  }

  /** Free slip for u: the side walls store the negated inward value of u, and the
      caps copy it, as with nearest-neighbour extrapolation. */
  lemma ReflectUMirrorsSides(g: Grid, s: seq<real>, i: int, j: int)
    requires g.Valid() && |s| == g.Size()
    requires 1 <= i <= g.ni - 2 && 1 <= j <= g.nj - 2
    ensures WithBoundary(g, ReflectU, s)[g.Idx(0, j)] == -s[g.Idx(1, j)]
    ensures WithBoundary(g, ReflectU, s)[g.Idx(g.ni - 1, j)] == -s[g.Idx(g.ni - 2, j)]
    ensures WithBoundary(g, ReflectU, s)[g.Idx(i, 0)] == s[g.Idx(i, 1)]
    ensures WithBoundary(g, ReflectU, s)[g.Idx(i, g.nj - 1)] == s[g.Idx(i, g.nj - 2)]
  {
    WithBoundaryAt(g, ReflectU, s, 0, j);
    WithBoundaryAt(g, ReflectU, s, g.ni - 1, j);
    WithBoundaryAt(g, ReflectU, s, i, 0);
    WithBoundaryAt(g, ReflectU, s, i, g.nj - 1);
  }

  /** Free slip for v: the caps store the negated inward value of v, and the side
      walls copy it. */
  lemma ReflectVMirrorsCaps(g: Grid, s: seq<real>, i: int, j: int)
    requires g.Valid() && |s| == g.Size()
    requires 1 <= i <= g.ni - 2 && 1 <= j <= g.nj - 2
    ensures WithBoundary(g, ReflectV, s)[g.Idx(i, 0)] == -s[g.Idx(i, 1)]
    ensures WithBoundary(g, ReflectV, s)[g.Idx(i, g.nj - 1)] == -s[g.Idx(i, g.nj - 2)]
    ensures WithBoundary(g, ReflectV, s)[g.Idx(0, j)] == s[g.Idx(1, j)]
    ensures WithBoundary(g, ReflectV, s)[g.Idx(g.ni - 1, j)] == s[g.Idx(g.ni - 2, j)]
  {
    WithBoundaryAt(g, ReflectV, s, i, 0);
    WithBoundaryAt(g, ReflectV, s, i, g.nj - 1);
    WithBoundaryAt(g, ReflectV, s, 0, j);
    WithBoundaryAt(g, ReflectV, s, g.ni - 1, j);
  }

  /** A consequence for u: on an all-positive interior, the side walls come out
      negative and the caps keep their sign. */
  lemma ReflectUSigns(g: Grid, s: seq<real>, i: int, j: int)
    requires g.Valid() && |s| == g.Size()
    requires forall i', j' :: g.Interior(i', j') ==> s[g.Idx(i', j')] > 0.0
    requires OnEdge(g, i, j)
    ensures (i == 0 || i == g.ni - 1) ==> WithBoundary(g, ReflectU, s)[g.Idx(i, j)] < 0.0
    ensures (j == 0 || j == g.nj - 1) ==> WithBoundary(g, ReflectU, s)[g.Idx(i, j)] > 0.0
  {
    if j == 0 || j == g.nj - 1 {
      ReflectUMirrorsSides(g, s, i, 1);
      assert g.Interior(i, 1) && g.Interior(i, g.nj - 2);
    } else {
      ReflectUMirrorsSides(g, s, 1, j);
      assert g.Interior(1, j) && g.Interior(g.ni - 2, j);
    }
  }

  /** No slip: NoStickU zeroes u on the side walls, NoStickV zeroes v on the caps,
      and the other walls copy the inward value. */
  lemma NoStickZeroesNormalWalls(g: Grid, s: seq<real>, i: int, j: int)
    requires g.Valid() && |s| == g.Size()
    requires OnEdge(g, i, j)
    ensures (i == 0 || i == g.ni - 1) ==> WithBoundary(g, NoStickU, s)[g.Idx(i, j)] == 0.0
    ensures (j == 0 || j == g.nj - 1) ==> WithBoundary(g, NoStickV, s)[g.Idx(i, j)] == 0.0
    ensures j == 0 ==> WithBoundary(g, NoStickU, s)[g.Idx(i, j)] == s[g.Idx(i, 1)]
    ensures i == 0 ==> WithBoundary(g, NoStickV, s)[g.Idx(i, j)] == s[g.Idx(1, j)]
    ensures j == g.nj - 1 ==> WithBoundary(g, NoStickU, s)[g.Idx(i, j)] == s[g.Idx(i, g.nj - 2)]
    ensures i == g.ni - 1 ==> WithBoundary(g, NoStickV, s)[g.Idx(i, j)] == s[g.Idx(g.ni - 2, j)]
  {
    WithBoundaryAt(g, NoStickU, s, i, j);
    WithBoundaryAt(g, NoStickV, s, i, j);
  }

  /** Nearest-neighbour extrapolation copies the inward cell on every wall, and each
      corner is the mean of its two edge neighbours. */
  lemma NNCopiesInward(g: Grid, s: seq<real>, i: int, j: int)
    requires g.Valid() && |s| == g.Size()
    requires 1 <= i <= g.ni - 2 && 1 <= j <= g.nj - 2
    ensures WithBoundary(g, NN, s)[g.Idx(i, 0)] == s[g.Idx(i, 1)]
    ensures WithBoundary(g, NN, s)[g.Idx(i, g.nj - 1)] == s[g.Idx(i, g.nj - 2)]
    ensures WithBoundary(g, NN, s)[g.Idx(0, j)] == s[g.Idx(1, j)]
    ensures WithBoundary(g, NN, s)[g.Idx(g.ni - 1, j)] == s[g.Idx(g.ni - 2, j)]
    ensures WithBoundary(g, NN, s)[g.Idx(0, 0)]
         == 0.5 * (WithBoundary(g, NN, s)[g.Idx(0, 1)] + WithBoundary(g, NN, s)[g.Idx(1, 0)])
  {
    WithBoundaryAt(g, NN, s, i, 0);
    WithBoundaryAt(g, NN, s, i, g.nj - 1);
    WithBoundaryAt(g, NN, s, 0, j);
    WithBoundaryAt(g, NN, s, g.ni - 1, j);
    WithBoundaryAt(g, NN, s, 0, 0);
    WithBoundaryAt(g, NN, s, 0, 1);
    WithBoundaryAt(g, NN, s, 1, 0);
  }

  /** A field that is c everywhere inside stays c everywhere under NN. */
  lemma NNOfConstant(g: Grid, s: seq<real>, c: real)
    requires g.Valid() && |s| == g.Size()
    requires forall i, j :: g.Interior(i, j) ==> s[g.Idx(i, j)] == c
    ensures forall k :: 0 <= k < |s| ==> WithBoundary(g, NN, s)[k] == c
  {
    forall k | 0 <= k < |s|
      ensures WithBoundary(g, NN, s)[k] == c
    {
      IdxOfCell(g, k);
      var i, j := g.Col(k), g.Row(k);
      if !g.Interior(i, j) && !OnEdge(g, i, j) {
        var ci := if i == 0 then 1 else g.ni - 2;
        var cj := if j == 0 then 1 else g.nj - 2;
        assert g.Interior(ci, cj);
      }
    }
  }
}
