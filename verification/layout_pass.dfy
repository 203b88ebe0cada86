/** The layout pass run when the grid is given a size: pick the width tier,
    give every child its effective span and order key, pack the row groups,
    and write each placed child's row, column and column span. */
module LayoutPass {
  import opened GridLayouts
  import opened Breakpoints
  import opened Spans
  import opened Orders
  import opened Grouping
  import opened Packing
  import opened PackingRules

  /** The grid's settings the pass reads: its column count and tier widths. */
  datatype Grid = Grid(columns: int, thresholds: Thresholds)

  /** Eight columns and the 400/800/1200 tier widths. */
  const DefaultGrid := Grid(8, DefaultThresholds)

  function Layouts(children: seq<Child>): (layouts: seq<GridLayout>)
    ensures |layouts| == |children|
    ensures forall i :: 0 <= i < |children| ==> layouts[i] == children[i].layout
  {
    seq(|children|, i requires 0 <= i < |children| => children[i].layout)
  }

  /** The per-child records of one pass at width tier `tier`: each child's
      position, declared row, effective span, and order key, where a child
      without an explicit key gets the number of keyless children before it. */
  function BuildLayouts(children: seq<Child>, tier: int): (ls: seq<ChildLayout>)
    ensures |ls| == |children|
    ensures EncounterOrdered(ls)
    ensures forall i :: 0 <= i < |ls| ==>
      && ls[i].index == i
      && ls[i].row == children[i].row
      && ls[i].span == CascadedSpan(children[i].layout, tier)
      && ls[i].order == children[i].layout.order.ValueOr(Unordered(Layouts(children)[..i]))
  {
    var orders := AutoOrders(Layouts(children), 0);
    seq(|children|, i requires 0 <= i < |children| =>
      ChildLayout(i, children[i].row, ColumnSpan(children[i].layout, tier), orders[i]))
  }

  /** The placements one pass makes, in the order it makes them; none when
      there are no children or the width is not positive. */
  function Pass(grid: Grid, width: real, children: seq<Child>): seq<Placement> {
    if |children| == 0 || width <= 0.0 then []
    else Pack(BuildLayouts(children, LayoutType(width, grid.thresholds)), grid.columns)
  }

  /** Writes each placement into the cell of its child, one after another. */
  function Apply(cells: seq<Position>, p: seq<Placement>): (r: seq<Position>)
    ensures |r| == |cells|
    decreases |p|
  {
    if |p| == 0 then cells
    else
      var i := p[0].view.index;
      Apply(if i < |cells| then cells[i := p[0].pos] else cells, p[1..])
  }

  /** A cell no placement writes keeps its value. */
  lemma {:induction false} ApplyKeeps(cells: seq<Position>, p: seq<Placement>, i: int)
    requires 0 <= i < |cells|
    requires forall k :: 0 <= k < |p| ==> p[k].view.index != i
    ensures Apply(cells, p)[i] == cells[i]
    decreases |p|
  {
    if |p| > 0 {
      var c := if p[0].view.index < |cells| then cells[p[0].view.index := p[0].pos] else cells;
      assert forall k :: 0 <= k < |p[1..]| ==> p[1..][k] == p[k + 1];
      ApplyKeeps(c, p[1..], i);
    }
  }

  /** The last placement of a child decides its cell. */
  lemma {:induction false} ApplyLastWins(cells: seq<Position>, p: seq<Placement>, k: int)
    requires 0 <= k < |p| && p[k].view.index < |cells|
    requires forall k2 :: k < k2 < |p| ==> p[k2].view.index != p[k].view.index
    ensures Apply(cells, p)[p[k].view.index] == p[k].pos
    decreases |p|
  {
    var c := if p[0].view.index < |cells| then cells[p[0].view.index := p[0].pos] else cells;
    assert forall n :: 0 <= n < |p[1..]| ==> p[1..][n] == p[n + 1];
    if k == 0 {
      ApplyKeeps(c, p[1..], p[0].view.index);
    } else {
      ApplyLastWins(c, p[1..], k - 1);
    }
  }

  /** What a layout pass at `width` leaves in the cells, given the cells
      before it. With no children or a width that is not positive nothing
      is written; otherwise every child of a declared row 0 or more gets the
      cell of its one placement, spanning its effective span for the width's
      tier on an output row numbered at least its declared row, and every child
      of a negative row keeps its cell. */
  predicate CellsAfterPass(grid: Grid, width: real, children: seq<Child>, prior: seq<Position>, cells: seq<Position>) {
    && |prior| == |children|
    && |cells| == |children|
    && (|children| == 0 || width <= 0.0 ==> cells == prior)
    && (forall i :: 0 <= i < |children| && children[i].row < 0 ==> cells[i] == prior[i])
    && (width > 0.0 ==> forall i :: 0 <= i < |children| && children[i].row >= 0 ==>
          && cells[i].columnSpan == CascadedSpan(children[i].layout, LayoutType(width, grid.thresholds))
          && cells[i].row >= children[i].row
          && exists k :: 0 <= k < |Pass(grid, width, children)| &&
               Pass(grid, width, children)[k].view.index == i && cells[i] == Pass(grid, width, children)[k].pos)
  }

  /** The layout pass: the children's cells after a pass at `width`. */
  function OnSizeAllocated(grid: Grid, width: real, children: seq<Child>, prior: seq<Position>): (cells: seq<Position>)
    requires |prior| == |children|
    ensures CellsAfterPass(grid, width, children, prior, cells)
  {
    PassCells(grid, width, children, prior);
    Apply(prior, Pass(grid, width, children))
  }

  lemma PassCells(grid: Grid, width: real, children: seq<Child>, prior: seq<Position>)
    requires |prior| == |children|
    ensures CellsAfterPass(grid, width, children, prior, Apply(prior, Pass(grid, width, children)))
  {
    var p := Pass(grid, width, children);
    if |children| == 0 || width <= 0.0 {
      assert Apply(prior, p) == prior;
    } else {
      PassCellsPlaced(grid, width, children, prior);
    }
  }

  /** The cells of a pass that does run, child by child. */
  lemma PassCellsPlaced(grid: Grid, width: real, children: seq<Child>, prior: seq<Position>)
    requires |prior| == |children| && |children| > 0 && width > 0.0
    ensures var p := Pass(grid, width, children);
      var cells := Apply(prior, p);
      && (forall i :: 0 <= i < |children| && children[i].row < 0 ==> cells[i] == prior[i])
      && (forall i :: 0 <= i < |children| && children[i].row >= 0 ==>
            && cells[i].columnSpan == CascadedSpan(children[i].layout, LayoutType(width, grid.thresholds))
            && cells[i].row >= children[i].row
            && exists k :: 0 <= k < |p| && p[k].view.index == i && cells[i] == p[k].pos)
  {
    var tier := LayoutType(width, grid.thresholds);
    var ls := BuildLayouts(children, tier);
    var p := Pass(grid, width, children);
    PassPlacesEachOnce(grid, width, children);
    PassRules(grid, width, children);
    Columns(p, grid.columns, 0, 0);
    ChildCells(p, ls, children, tier, prior);
  }

  /** Given records built one per child, with the child's row and its
      cascaded span at `tier`, and placements that place each record of a
      row 0 or more once: every child of a negative row keeps its cell, and
      every other child gets the cell of its one placement, spanning its
      cascaded span on an output row at least its declared row. */
  lemma ChildCells(p: seq<Placement>, ls: seq<ChildLayout>, children: seq<Child>, tier: int, prior: seq<Position>)
    requires |prior| == |ls| == |children|
    requires forall i :: 0 <= i < |ls| ==>
      ls[i].row == children[i].row && ls[i].span == CascadedSpan(children[i].layout, tier)
    requires PlacesEachOnce(p, ls)
    requires forall k :: 0 <= k < |p| ==> p[k].pos.columnSpan == p[k].view.span
    ensures var cells := Apply(prior, p);
      && (forall i :: 0 <= i < |children| && children[i].row < 0 ==> cells[i] == prior[i])
      && (forall i :: 0 <= i < |children| && children[i].row >= 0 ==>
            && cells[i].columnSpan == CascadedSpan(children[i].layout, tier)
            && cells[i].row >= children[i].row
            && exists k :: 0 <= k < |p| && p[k].view.index == i && cells[i] == p[k].pos)
  {
    CellsOf(p, ls, prior);
  }

  /** The cells after writing placements that place each record of a
      declared row 0 or more once, with its span, and no other record. */
  lemma CellsOf(p: seq<Placement>, ls: seq<ChildLayout>, prior: seq<Position>)
    requires |prior| == |ls|
    requires PlacesEachOnce(p, ls)
    requires forall k :: 0 <= k < |p| ==> p[k].pos.columnSpan == p[k].view.span
    ensures var cells := Apply(prior, p);
      && (forall i :: 0 <= i < |ls| && ls[i].row < 0 ==> cells[i] == prior[i])
      && (forall i :: 0 <= i < |ls| && ls[i].row >= 0 ==>
            && cells[i].columnSpan == ls[i].span
            && cells[i].row >= ls[i].row
            && exists k :: 0 <= k < |p| && p[k].view.index == i && cells[i] == p[k].pos)
  {
    ApplyCells(prior, p);
  }

  /** What `Apply` does to the cells when every child is placed at most once. */
  lemma ApplyCells(prior: seq<Position>, p: seq<Placement>)
    requires forall a, b :: 0 <= a < b < |p| ==> p[a].view.index != p[b].view.index
    requires forall k :: 0 <= k < |p| ==> p[k].view.index < |prior|
    ensures forall i :: 0 <= i < |prior| && (forall k :: 0 <= k < |p| ==> p[k].view.index != i) ==>
      Apply(prior, p)[i] == prior[i]
    ensures forall k :: 0 <= k < |p| ==> Apply(prior, p)[p[k].view.index] == p[k].pos
  {
    forall i | 0 <= i < |prior| && (forall k :: 0 <= k < |p| ==> p[k].view.index != i)
      ensures Apply(prior, p)[i] == prior[i]
    {
      ApplyKeeps(prior, p, i);
    }
    forall k | 0 <= k < |p|
      ensures Apply(prior, p)[p[k].view.index] == p[k].pos
    {
      ApplyLastWins(prior, p, k);
    }
  }

  /** A pass's placements obey the packing rules from output row 0 and come
      in processing order: declared row, then order key, then encounter order. */
  lemma PassRules(grid: Grid, width: real, children: seq<Child>)
    requires |children| > 0 && width > 0.0
    ensures var p := Pass(grid, width, children);
      PackedFrom(p, grid.columns, 0, 0) && InPassOrder(p)
  {
    PackSpec(BuildLayouts(children, LayoutType(width, grid.thresholds)), grid.columns);
  }

  /** `p` places exactly the records of `ls` whose declared row is 0 or
      more, each exactly once, on an output row at least its declared
      row; records are identified by their index. */
  predicate PlacesEachOnce(p: seq<Placement>, ls: seq<ChildLayout>) {
    && (forall k :: 0 <= k < |p| ==> p[k].view.index < |ls| && p[k].view == ls[p[k].view.index])
    && (forall k :: 0 <= k < |p| ==> p[k].pos.row >= p[k].view.row)
    && (forall a, b :: 0 <= a < b < |p| ==> p[a].view.index != p[b].view.index)
    && (forall i :: 0 <= i < |ls| ==> (ls[i].row >= 0 <==> exists k :: 0 <= k < |p| && p[k].view.index == i))
  }

  /** A pass places every child of a declared row 0 or more exactly once,
      with the record built for it at the width's tier, and no other child. */
  lemma PassPlacesEachOnce(grid: Grid, width: real, children: seq<Child>)
    requires width > 0.0
    ensures PlacesEachOnce(Pass(grid, width, children), BuildLayouts(children, LayoutType(width, grid.thresholds)))
  {
    var ls := BuildLayouts(children, LayoutType(width, grid.thresholds));
    if |children| > 0 {
      PackSpec(ls, grid.columns);
      PlacedExactly(Pack(ls, grid.columns), ls, grid.columns);
    }
  }

  /** Any packing over records identified by index that places each record of
      a declared row 0 or more as often as it occurs, and no other, in
      processing order, places each such record exactly once. */
  lemma PlacedExactly(p: seq<Placement>, ls: seq<ChildLayout>, columns: int)
    requires PackedFrom(p, columns, 0, 0) && InPassOrder(p)
    requires forall i :: 0 <= i < |ls| ==> ls[i].index == i
    requires forall v :: multiset(Views(p))[v] == if v.row >= 0 then multiset(ls)[v] else 0
    ensures PlacesEachOnce(p, ls)
  {
    PlacedRecords(p, ls, columns);
    PlacedOnce(p, ls);
  }

  /** Each placement of a pass is one of the pass's records, identified by
      its index, on an output row no higher than its declared row. */
  lemma PlacedRecords(p: seq<Placement>, ls: seq<ChildLayout>, columns: int)
    requires PackedFrom(p, columns, 0, 0) && InPassOrder(p)
    requires forall i :: 0 <= i < |ls| ==> ls[i].index == i
    requires forall v :: multiset(Views(p))[v] == if v.row >= 0 then multiset(ls)[v] else 0
    ensures forall k :: 0 <= k < |p| ==> p[k].view.index < |ls| && p[k].view == ls[p[k].view.index]
    ensures forall k :: 0 <= k < |p| ==> p[k].view.row >= 0 && p[k].pos.row >= p[k].view.row
  {
    forall k | 0 <= k < |p|
      ensures p[k].view.index < |ls| && p[k].view == ls[p[k].view.index]
      ensures p[k].view.row >= 0 && p[k].pos.row >= p[k].view.row
    {
      assert multiset(Views(p))[Views(p)[k]] > 0;
      assert p[k].view in multiset(ls);
      RowAtLeastDeclared(p, columns, 0, 0, k);
    }
  }

  /** In processing order no record is placed twice, and every record of a
      declared row 0 or more is placed while no other record is. */
  lemma PlacedOnce(p: seq<Placement>, ls: seq<ChildLayout>)
    requires InPassOrder(p)
    requires forall i :: 0 <= i < |ls| ==> ls[i].index == i
    requires forall k :: 0 <= k < |p| ==> p[k].view.index < |ls| && p[k].view == ls[p[k].view.index]
    requires forall k :: 0 <= k < |p| ==> p[k].view.row >= 0
    requires forall v :: multiset(Views(p))[v] == if v.row >= 0 then multiset(ls)[v] else 0
    ensures forall a, b :: 0 <= a < b < |p| ==> p[a].view.index != p[b].view.index
    ensures forall i :: 0 <= i < |ls| ==> (ls[i].row >= 0 <==> exists k :: 0 <= k < |p| && p[k].view.index == i)
  {
    forall a, b | 0 <= a < b < |p|
      ensures p[a].view.index != p[b].view.index
    {
      assert Precedes(p[a].view, p[b].view);
    }
    forall i | 0 <= i < |ls| && ls[i].row >= 0
      ensures exists k :: 0 <= k < |p| && p[k].view.index == i
    {
      assert ls[i] in multiset(ls);
      assert ls[i] in multiset(Views(p));
      var k :| 0 <= k < |p| && Views(p)[k] == ls[i];
      assert p[k].view.index == i;
    }
  }

  /** A child declaring only an extra-small span of `span`, in declared row `row`. */
  function Spanning(span: int, row: int): Child {
    Child(Undeclared.(extraSmall := HasValue(span)), row)
  }

  const Blank := Position(0, 0, 0)

  /** A child with explicit key 5 keeps it; the keyless child after it gets
      key 0, since no keyless child comes before it. */
  lemma LayoutsExample()
    ensures BuildLayouts([Child(Undeclared.(order := HasValue(5)), 0), Spanning(1, 0)], 1)
         == [ChildLayout(0, 0, 1, 5), ChildLayout(1, 0, 1, 0)]
  {
  }

  /** Two five-column children at width 300 in the default grid: the second
      wraps to output row 1. */
  lemma WrapPassExample()
    ensures OnSizeAllocated(DefaultGrid, 300.0, [Spanning(5, 0), Spanning(5, 0)], [Blank, Blank])
         == [Position(0, 0, 5), Position(1, 0, 5)]
  {
    assert LayoutType(300.0, DefaultThresholds) == 1;
    WrapLayouts();
    WrapExample();
    WrapCells();
  }

  lemma WrapLayouts()
    ensures BuildLayouts([Spanning(5, 0), Spanning(5, 0)], 1) == [ChildLayout(0, 0, 5, 0), ChildLayout(1, 0, 5, 1)]
  {
  }

  lemma WrapCells()
    ensures Apply([Blank, Blank], [Placement(ChildLayout(0, 0, 5, 0), Position(0, 0, 5)),
                                   Placement(ChildLayout(1, 0, 5, 1), Position(1, 0, 5))])
         == [Position(0, 0, 5), Position(1, 0, 5)]
  {
  }

  /** A ten-column child at width 300 in the default grid lands on output
      row 1, column 0. */
  lemma OversizedPassExample()
    ensures OnSizeAllocated(DefaultGrid, 300.0, [Spanning(10, 0)], [Blank]) == [Position(1, 0, 10)]
  {
    assert LayoutType(300.0, DefaultThresholds) == 1;
    assert BuildLayouts([Spanning(10, 0)], 1) == [ChildLayout(0, 0, 10, 0)];
    OversizedExample();
    assert Apply([Blank], [Placement(ChildLayout(0, 0, 10, 0), Position(1, 0, 10))]) == [Position(1, 0, 10)];
  }

  /** With no width nothing is written. */
  lemma NoWidthExample()
    ensures OnSizeAllocated(DefaultGrid, 0.0, [Spanning(5, 0)], [Position(3, 2, 1)]) == [Position(3, 2, 1)]
  {
  }
}
