/** Row packing: row groups are visited for declared rows 0 .. max, each group
    is laid out left to right with a column cursor that wraps to a new output
    row when a child does not fit, and every group ends by moving to a fresh
    output row. */
module Packing {
  import opened Grouping

  /** The grid cell written for a child: output row, column and column span. */
  datatype Position = Position(row: int, column: int, columnSpan: int)

  /** A child together with the position the pass writes for it. */
  datatype Placement = Placement(view: ChildLayout, pos: Position)

  /** The column just right of a placed child, where the cursor moves next. */
  function End(p: Placement): int {
    p.pos.column + p.pos.columnSpan
  }

  /** The cursor rule: with the cursor at `cursor` on output row `row`, a child
      goes at the cursor when it fits within `columns`, and otherwise at column
      0 of the next output row; its span is never changed. */
  predicate PlacedAfter(p: Placement, columns: int, cursor: int, row: int) {
    if cursor + p.view.span > columns then p.pos == Position(row + 1, 0, p.view.span)
    else p.pos == Position(row, cursor, p.view.span)
  }

  /** Where `b` goes given `a`, the child placed just before it: in the same
      group the cursor continues after `a`; in a later group the cursor is back
      at 0 and the output row has moved on once per declared row passed. */
  predicate Follows(a: Placement, b: Placement, columns: int) {
    if a.view.row == b.view.row then PlacedAfter(b, columns, End(a), a.pos.row)
    else PlacedAfter(b, columns, 0, a.pos.row + (b.view.row - a.view.row))
  }

  /** A placement sequence obeys the packing rules, given that the pass began
      at declared row `row` with output row `rowReal`. Neighbours are bound
      as `i, j` with `j == i + 1`, here and in the lemmas about the rules,
      rather than written `p[i]` and `p[i + 1]`: a trigger on `p[i + 1]`
      would match its own instances and loop. */
  ghost predicate PackedFrom(p: seq<Placement>, columns: int, row: int, rowReal: int) {
    && (|p| > 0 ==> PlacedAfter(p[0], columns, 0, rowReal + (p[0].view.row - row)))
    && (forall i, j :: 0 <= i < j < |p| && j == i + 1 ==> Follows(p[i], p[j], columns))
  }

  /** Processing order: by declared row, then by key, then encounter order. */
  predicate Precedes(a: ChildLayout, b: ChildLayout) {
    a.row < b.row || (a.row == b.row && Before(a, b))
  }

  predicate InPassOrder(p: seq<Placement>) {
    forall i, j :: 0 <= i < j < |p| ==> Precedes(p[i].view, p[j].view)
  }

  /** The children in the order they were placed. */
  function Views(p: seq<Placement>): (vs: seq<ChildLayout>)
    ensures |vs| == |p|
  {
    seq(|p|, k requires 0 <= k < |p| => p[k].view)
  }

  lemma ViewsAppend(a: seq<Placement>, b: seq<Placement>)
    ensures Views(a + b) == Views(a) + Views(b)
  {
  }

  /** Lays out one group from cursor `col` on output row `rowReal`. */
  function PackGroup(views: seq<ChildLayout>, columns: int, col: int, rowReal: int): (ps: seq<Placement>)
    ensures |ps| == |views|
    decreases |views|
  {
    if |views| == 0 then []
    else
      var v := views[0];
      var wrap := col + v.span > columns;
      var c := if wrap then 0 else col;
      var r := if wrap then rowReal + 1 else rowReal;
      [Placement(v, Position(r, c, v.span))] + PackGroup(views[1..], columns, c + v.span, r)
  }

  /** Within a group each child is placed by the cursor rule, the cursor
      continuing right after the previous child, and the children keep the
      group's order. */
  lemma PackGroupRules(views: seq<ChildLayout>, columns: int, col: int, rowReal: int)
    ensures var ps := PackGroup(views, columns, col, rowReal);
      && (forall k :: 0 <= k < |ps| ==> ps[k].view == views[k])
      && (|ps| > 0 ==> PlacedAfter(ps[0], columns, col, rowReal))
      && (forall i, j :: 0 <= i < j < |ps| && j == i + 1 ==> PlacedAfter(ps[j], columns, End(ps[i]), ps[i].pos.row))
  {
    var ps := PackGroup(views, columns, col, rowReal);
    PackGroupViews(views, columns, col, rowReal);
    assert forall k :: 0 <= k < |ps| ==> Views(ps)[k] == ps[k].view;
    PackGroupAdjacent(views, columns, col, rowReal);
  }

  /** The first child of a group goes where the cursor rule puts it. */
  lemma PackGroupFirst(views: seq<ChildLayout>, columns: int, col: int, rowReal: int)
    ensures var ps := PackGroup(views, columns, col, rowReal);
      |ps| > 0 ==> PlacedAfter(ps[0], columns, col, rowReal)
  {
  }

  /** Every later child of a group goes where the cursor rule puts it, with
      the cursor right after the child before it. */
  lemma {:induction false} PackGroupAdjacent(views: seq<ChildLayout>, columns: int, col: int, rowReal: int)
    ensures var ps := PackGroup(views, columns, col, rowReal);
      forall i, j :: 0 <= i < j < |ps| && j == i + 1 ==> PlacedAfter(ps[j], columns, End(ps[i]), ps[i].pos.row)
    decreases |views|
  {
    if |views| > 1 {
      var v := views[0];
      var wrap := col + v.span > columns;
      var c := if wrap then 0 else col;
      var r := if wrap then rowReal + 1 else rowReal;
      var first := Placement(v, Position(r, c, v.span));
      var rest := PackGroup(views[1..], columns, c + v.span, r);
      PackGroupFirst(views[1..], columns, c + v.span, r);
      PackGroupAdjacent(views[1..], columns, c + v.span, r);
      var ps := [first] + rest;
      assert ps == PackGroup(views, columns, col, rowReal);
      forall i, j | 0 <= i < j < |ps| && j == i + 1
        ensures PlacedAfter(ps[j], columns, End(ps[i]), ps[i].pos.row)
      {
        if i == 0 {
          assert ps[j] == rest[0];
        } else {
          assert ps[i] == rest[i - 1] && ps[j] == rest[j - 1];
        }
      }
    }
  }

  lemma {:induction false} PackGroupViews(views: seq<ChildLayout>, columns: int, col: int, rowReal: int)
    ensures Views(PackGroup(views, columns, col, rowReal)) == views
    decreases |views|
  {
    if |views| > 0 {
      var v := views[0];
      var wrap := col + v.span > columns;
      var c := if wrap then 0 else col;
      var r := if wrap then rowReal + 1 else rowReal;
      PackGroupViews(views[1..], columns, c + v.span, r);
      assert views == [v] + views[1..];
    }
  }

  /** The output row the cursor is on after a group laid out from `rowReal`. */
  function LastRow(ps: seq<Placement>, rowReal: int): int {
    if |ps| == 0 then rowReal else ps[|ps| - 1].pos.row
  }

  /** Lays out the groups of declared rows `row` .. `rows`, starting on output
      row `rowReal`; after each group the output row advances by one. */
  function PackRows(ls: seq<ChildLayout>, columns: int, row: int, rows: int, rowReal: int): seq<Placement>
    decreases rows - row + 1
  {
    if row > rows then []
    else
      var group := PackGroup(RowGroup(ls, row), columns, 0, rowReal);
      group + PackRows(ls, columns, row + 1, rows, LastRow(group, rowReal) + 1)
  }

  /** One step of `PackRows`: the first group, then the rest from the next
      output row. */
  lemma PackRowsStep(ls: seq<ChildLayout>, columns: int, row: int, rows: int, rowReal: int)
    requires row <= rows
    ensures var group := PackGroup(RowGroup(ls, row), columns, 0, rowReal);
      PackRows(ls, columns, row, rows, rowReal)
        == group + PackRows(ls, columns, row + 1, rows, LastRow(group, rowReal) + 1)
  {
  }

  /** The greatest declared row. */
  function MaxRow(ls: seq<ChildLayout>): (m: int)
    requires |ls| > 0
    ensures forall k :: 0 <= k < |ls| ==> ls[k].row <= m
    ensures exists k :: 0 <= k < |ls| && ls[k].row == m
    decreases |ls|
  {
    if |ls| == 1 then ls[0].row
    else
      var m := MaxRow(ls[1..]);
      assert forall k :: 1 <= k < |ls| ==> ls[k] == ls[1..][k - 1];
      if ls[0].row >= m then ls[0].row else m
  }

  /** The packing of a whole pass: declared rows 0 .. max, from output row 0. */
  function Pack(ls: seq<ChildLayout>, columns: int): seq<Placement>
    requires |ls| > 0
  {
    PackRows(ls, columns, 0, MaxRow(ls), 0)
  }

  /** The placements of one group obey the packing rules, keep processing
      order, and are the group's children in the group's order. */
  lemma GroupSpec(ls: seq<ChildLayout>, columns: int, row: int, rowReal: int)
    requires EncounterOrdered(ls)
    ensures var g := PackGroup(RowGroup(ls, row), columns, 0, rowReal);
      && PackedFrom(g, columns, row, rowReal)
      && InPassOrder(g)
      && (forall k :: 0 <= k < |g| ==> g[k].view.row == row)
  {
    var views := RowGroup(ls, row);
    RowGroupSpec(ls, row);
    forall k | 0 <= k < |views|
      ensures views[k].row == row
    {
      assert multiset(views)[views[k]] > 0;
    }
    SortedGroupPacked(views, columns, row, rowReal);
  }

  /** Laying out a key-sorted group of one declared row obeys the packing
      rules and keeps processing order. */
  lemma SortedGroupPacked(views: seq<ChildLayout>, columns: int, row: int, rowReal: int)
    requires forall k :: 0 <= k < |views| ==> views[k].row == row
    requires SortedByOrder(views)
    ensures var g := PackGroup(views, columns, 0, rowReal);
      && PackedFrom(g, columns, row, rowReal)
      && InPassOrder(g)
      && (forall k :: 0 <= k < |g| ==> g[k].view.row == row)
  {
    var g := PackGroup(views, columns, 0, rowReal);
    PackGroupRules(views, columns, 0, rowReal);
    forall i, j | 0 <= i < j < |g| && j == i + 1
      ensures Follows(g[i], g[j], columns)
    {
      assert g[i].view.row == g[j].view.row;
    }
    forall i, j | 0 <= i < j < |g|
      ensures Precedes(g[i].view, g[j].view)
    {
      assert Before(views[i], views[j]);
    }
  }

  /** A group's placements are children of its declared row. */
  lemma GroupRows(ls: seq<ChildLayout>, columns: int, row: int, rowReal: int)
    ensures var g := PackGroup(RowGroup(ls, row), columns, 0, rowReal);
      forall k :: 0 <= k < |g| ==> g[k].view.row == row
  {
    var views := RowGroup(ls, row);
    RowGroupSpec(ls, row);
    PackGroupRules(views, columns, 0, rowReal);
    forall k | 0 <= k < |views|
      ensures views[k].row == row
    {
      assert multiset(views)[views[k]] > 0;
    }
  }

  /** Packing declared rows `row` .. `rows` places only children of those rows. */
  lemma {:induction false} PackRowsWithin(ls: seq<ChildLayout>, columns: int, row: int, rows: int, rowReal: int)
    ensures var p := PackRows(ls, columns, row, rows, rowReal);
      forall k :: 0 <= k < |p| ==> row <= p[k].view.row <= rows
    decreases rows - row + 1
  {
    if row <= rows {
      var group := PackGroup(RowGroup(ls, row), columns, 0, rowReal);
      var next := LastRow(group, rowReal) + 1;
      PackRowsStep(ls, columns, row, rows, rowReal);
      GroupRows(ls, columns, row, rowReal);
      PackRowsWithin(ls, columns, row + 1, rows, next);
      JoinRows(group, PackRows(ls, columns, row + 1, rows, next), row, rows);
    }
  }

  lemma JoinRows(group: seq<Placement>, rest: seq<Placement>, row: int, rows: int)
    requires row <= rows
    requires forall k :: 0 <= k < |group| ==> group[k].view.row == row
    requires forall k :: 0 <= k < |rest| ==> row + 1 <= rest[k].view.row <= rows
    ensures forall k :: 0 <= k < |group + rest| ==> row <= (group + rest)[k].view.row <= rows
  {
    var p := group + rest;
    forall k | 0 <= k < |p|
      ensures row <= p[k].view.row <= rows
    {
      if k < |group| {
        assert p[k] == group[k];
      } else {
        assert p[k] == rest[k - |group|];
      }
    }
  }

  /** Packing declared rows `row` .. `rows` places the row groups one after
      the other: the children are visited exactly in the pass's order. */
  lemma {:induction false} PackRowsViews(ls: seq<ChildLayout>, columns: int, row: int, rows: int, rowReal: int)
    ensures Views(PackRows(ls, columns, row, rows, rowReal)) == Grouped(ls, row, rows)
    decreases rows - row + 1
  {
    if row <= rows {
      var views := RowGroup(ls, row);
      var group := PackGroup(views, columns, 0, rowReal);
      var next := LastRow(group, rowReal) + 1;
      var rest := PackRows(ls, columns, row + 1, rows, next);
      PackRowsStep(ls, columns, row, rows, rowReal);
      ViewsAppend(group, rest);
      PackGroupViews(views, columns, 0, rowReal);
      PackRowsViews(ls, columns, row + 1, rows, next);
    }
  }

  /** Packing declared rows `row` .. `rows` obeys the packing rules. */
  lemma {:induction false} PackRowsPacked(ls: seq<ChildLayout>, columns: int, row: int, rows: int, rowReal: int)
    requires EncounterOrdered(ls)
    ensures PackedFrom(PackRows(ls, columns, row, rows, rowReal), columns, row, rowReal)
    decreases rows - row + 1
  {
    if row <= rows {
      var group := PackGroup(RowGroup(ls, row), columns, 0, rowReal);
      var next := LastRow(group, rowReal) + 1;
      PackRowsStep(ls, columns, row, rows, rowReal);
      GroupSpec(ls, columns, row, rowReal);
      PackRowsWithin(ls, columns, row + 1, rows, next);
      PackRowsPacked(ls, columns, row + 1, rows, next);
      JoinPacked(group, PackRows(ls, columns, row + 1, rows, next), columns, row, rowReal);
    }
  }

  /** Packing declared rows `row` .. `rows` places children in processing
      order: by declared row, then key, then encounter order. */
  lemma {:induction false} PackRowsOrdered(ls: seq<ChildLayout>, columns: int, row: int, rows: int, rowReal: int)
    requires EncounterOrdered(ls)
    ensures InPassOrder(PackRows(ls, columns, row, rows, rowReal))
    decreases rows - row + 1
  {
    if row <= rows {
      var group := PackGroup(RowGroup(ls, row), columns, 0, rowReal);
      var next := LastRow(group, rowReal) + 1;
      PackRowsStep(ls, columns, row, rows, rowReal);
      GroupSpec(ls, columns, row, rowReal);
      PackRowsWithin(ls, columns, row + 1, rows, next);
      PackRowsOrdered(ls, columns, row + 1, rows, next);
      JoinOrdered(group, PackRows(ls, columns, row + 1, rows, next), row);
    }
  }

  /** A group followed by the later groups obeys the packing rules. */
  lemma JoinPacked(group: seq<Placement>, rest: seq<Placement>, columns: int, row: int, rowReal: int)
    requires PackedFrom(group, columns, row, rowReal)
    requires forall k :: 0 <= k < |group| ==> group[k].view.row == row
    requires PackedFrom(rest, columns, row + 1, LastRow(group, rowReal) + 1)
    requires forall k :: 0 <= k < |rest| ==> row < rest[k].view.row
    ensures PackedFrom(group + rest, columns, row, rowReal)
  {
    var p := group + rest;
    forall i, j | 0 <= i < j < |p| && j == i + 1
      ensures Follows(p[i], p[j], columns)
    {
      if j < |group| {
        assert p[i] == group[i] && p[j] == group[j];
      } else if j == |group| {
        assert p[i] == group[i] && p[j] == rest[0];
      } else {
        assert p[i] == rest[i - |group|] && p[j] == rest[j - |group|];
      }
    }
    if |p| > 0 && |group| == 0 {
      assert p[0] == rest[0];
    }
  }

  /** A group followed by groups of later declared rows is in processing order. */
  lemma JoinOrdered(group: seq<Placement>, rest: seq<Placement>, row: int)
    requires InPassOrder(group) && InPassOrder(rest)
    requires forall k :: 0 <= k < |group| ==> group[k].view.row == row
    requires forall k :: 0 <= k < |rest| ==> row < rest[k].view.row
    ensures InPassOrder(group + rest)
  {
    var p := group + rest;
    forall i, j | 0 <= i < j < |p|
      ensures Precedes(p[i].view, p[j].view)
    {
      if j < |group| {
        assert p[i] == group[i] && p[j] == group[j];
      } else if i < |group| {
        assert p[i] == group[i] && p[j] == rest[j - |group|];
      } else {
        assert p[i] == rest[i - |group|] && p[j] == rest[j - |group|];
      }
    }
  }

  /** The whole pass: the packing rules from output row 0, processing order,
      and every child with a declared row of 0 or more placed exactly as
      often as it occurs; a child with a negative declared row is not placed. */
  lemma PackSpec(ls: seq<ChildLayout>, columns: int)
    requires |ls| > 0 && EncounterOrdered(ls)
    ensures var p := Pack(ls, columns);
      && PackedFrom(p, columns, 0, 0)
      && InPassOrder(p)
      && (forall v :: multiset(Views(p))[v] == if v.row >= 0 then multiset(ls)[v] else 0)
  {
    var m := MaxRow(ls);
    PackRowsViews(ls, columns, 0, m, 0);
    GroupedCounts(ls, 0, m);
    PackRowsPacked(ls, columns, 0, m, 0);
    PackRowsOrdered(ls, columns, 0, m, 0);
  }

  /** Two five-column children of declared row 0 in eight columns: the
      second does not fit after the first and wraps to output row 1. */
  lemma WrapExample()
    ensures Pack([ChildLayout(0, 0, 5, 0), ChildLayout(1, 0, 5, 1)], 8)
         == [Placement(ChildLayout(0, 0, 5, 0), Position(0, 0, 5)),
             Placement(ChildLayout(1, 0, 5, 1), Position(1, 0, 5))]
  {
  }

  /** A child wider than the eight columns, alone in declared row 0: the
      cursor at 0 still counts as full, so it goes to column 0 of output
      row 1 and output row 0 stays empty. */
  lemma OversizedExample()
    ensures Pack([ChildLayout(0, 0, 10, 0)], 8) == [Placement(ChildLayout(0, 0, 10, 0), Position(1, 0, 10))]
  {
  }

  /** A negative span pulls the cursor back: after a span of -5 a child of
      span 10 still fits on row 0 (-5 + 10 <= 8) and starts at column -5. */
  lemma NegativeSpanExample()
    ensures Pack([ChildLayout(0, 0, -5, 0), ChildLayout(1, 0, 10, 1)], 8)
         == [Placement(ChildLayout(0, 0, -5, 0), Position(0, 0, -5)),
             Placement(ChildLayout(1, 0, 10, 1), Position(0, -5, 10))]
  {
  }

  /** Within a declared row the key decides: the child with key 0 goes
      first although it was met second. */
  lemma OrderExample()
    ensures Pack([ChildLayout(0, 0, 1, 5), ChildLayout(1, 0, 1, 0)], 8)
         == [Placement(ChildLayout(1, 0, 1, 0), Position(0, 0, 1)),
             Placement(ChildLayout(0, 0, 1, 5), Position(0, 1, 1))]
  {
  }

  /** Empty declared rows 0 and 1 still move the output row on, so the
      child of declared row 2 lands on output row 2; the child of declared
      row -1 is not placed. */
  lemma GapExample()
    ensures Pack([ChildLayout(0, -1, 1, 0), ChildLayout(1, 2, 1, 1)], 8)
         == [Placement(ChildLayout(1, 2, 1, 1), Position(2, 0, 1))]
  {
  }
}
