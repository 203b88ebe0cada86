/** Consequences of the packing rules for any placement sequence that obeys
    them in processing order: the shape of the grid the pass produces. */
module PackingRules {
  import opened Grouping
  import opened Packing

  /** The rules of two neighbouring placements. */
  lemma Adjacent(p: seq<Placement>, columns: int, row: int, rowReal: int, i: int)
    requires PackedFrom(p, columns, row, rowReal) && InPassOrder(p)
    requires 0 <= i && i + 1 < |p|
    ensures Follows(p[i], p[i + 1], columns)
    ensures p[i].view.row <= p[i + 1].view.row
  {
    assert Precedes(p[i].view, p[i + 1].view);
  }

  /** Output rows never go back up, and a later declared row always lands on
      a strictly lower output row than an earlier one. */
  lemma {:induction false} RowsFrom(p: seq<Placement>, columns: int, row: int, rowReal: int, i: int, j: int)
    requires PackedFrom(p, columns, row, rowReal) && InPassOrder(p)
    requires 0 <= i <= j < |p|
    ensures p[i].pos.row <= p[j].pos.row
    ensures p[i].view.row < p[j].view.row ==> p[i].pos.row < p[j].pos.row
    decreases j - i
  {
    if i < j {
      RowsFrom(p, columns, row, rowReal, i, j - 1);
      Adjacent(p, columns, row, rowReal, j - 1);
    }
  }

  /** A child wider than the grid that opens its declared row's group goes
      to column 0 one output row below the row its group opened on, and
      that row stays empty: nothing at all is placed on it. This holds
      whatever the signs of the spans. */
  lemma OversizedOpenerLeavesRowEmpty(p: seq<Placement>, columns: int, row: int, rowReal: int, j: int)
    requires PackedFrom(p, columns, row, rowReal) && InPassOrder(p)
    requires 0 <= j < |p| && p[j].view.span > columns
    requires j == 0 || p[j - 1].view.row < p[j].view.row
    ensures p[j].pos.column == 0
    ensures forall k :: 0 <= k < |p| ==> p[k].pos.row != p[j].pos.row - 1
  {
    if j > 0 {
      Adjacent(p, columns, row, rowReal, j - 1);
    }
    forall k | 0 <= k < |p|
      ensures p[k].pos.row != p[j].pos.row - 1
    {
      if k < j {
        RowsFrom(p, columns, row, rowReal, k, j - 1);
      } else {
        RowsFrom(p, columns, row, rowReal, j, k);
      }
    }
  }

  /** Output rows are non-decreasing along the pass. */
  lemma RowsNonDecreasing(p: seq<Placement>, columns: int, row: int, rowReal: int)
    requires PackedFrom(p, columns, row, rowReal) && InPassOrder(p)
    ensures forall i, j :: 0 <= i <= j < |p| ==> p[i].pos.row <= p[j].pos.row
  {
    forall i, j | 0 <= i <= j < |p|
      ensures p[i].pos.row <= p[j].pos.row
    {
      RowsFrom(p, columns, row, rowReal, i, j);
    }
  }

  /** Every child of a lower declared row sits on a strictly lower output row
      than every child of a higher declared row: groups never share a row. */
  lemma GroupsSeparated(p: seq<Placement>, columns: int, row: int, rowReal: int)
    requires PackedFrom(p, columns, row, rowReal) && InPassOrder(p)
    ensures forall i, j :: 0 <= i < |p| && 0 <= j < |p| && p[i].view.row < p[j].view.row ==>
      p[i].pos.row < p[j].pos.row
  {
    forall i, j | 0 <= i < |p| && 0 <= j < |p| && p[i].view.row < p[j].view.row
      ensures p[i].pos.row < p[j].pos.row
    {
      RowsFrom(p, columns, row, rowReal, i, j);
    }
  }

  /** Each placement keeps its child's effective span, a child that starts
      past column 0 fits within the grid, and the first child of an output
      row starts at column 0 while any other continues right after its
      neighbour, within the same declared row. */
  lemma Columns(p: seq<Placement>, columns: int, row: int, rowReal: int)
    requires PackedFrom(p, columns, row, rowReal) && InPassOrder(p)
    ensures forall k :: 0 <= k < |p| ==> p[k].pos.columnSpan == p[k].view.span
    ensures forall k :: 0 <= k < |p| && p[k].pos.column != 0 ==> End(p[k]) <= columns
    ensures |p| > 0 ==> p[0].pos.column == 0
    ensures forall i, j :: 0 <= i < j < |p| && j == i + 1 && p[i].pos.row != p[j].pos.row ==>
      p[j].pos.column == 0
    ensures forall i, j :: 0 <= i < j < |p| && j == i + 1 && p[i].pos.row == p[j].pos.row ==>
      p[j].pos.column == End(p[i]) && p[i].view.row == p[j].view.row
  {
    forall k | 0 < k < |p|
      ensures p[k].pos.columnSpan == p[k].view.span
      ensures p[k].pos.column != 0 ==> End(p[k]) <= columns
    {
      Adjacent(p, columns, row, rowReal, k - 1);
    }
    forall i, j | 0 <= i < j < |p| && j == i + 1
      ensures p[i].pos.row != p[j].pos.row ==> p[j].pos.column == 0
      ensures p[i].pos.row == p[j].pos.row ==> p[j].pos.column == End(p[i]) && p[i].view.row == p[j].view.row
    {
      Adjacent(p, columns, row, rowReal, i);
    }
  }

  /** Within a declared row a child stays on its neighbour's output row
      exactly when it fits after it, and otherwise wraps to the next one. */
  lemma WrapsWhenFull(p: seq<Placement>, columns: int, row: int, rowReal: int)
    requires PackedFrom(p, columns, row, rowReal) && InPassOrder(p)
    ensures forall i, j :: 0 <= i < j < |p| && j == i + 1 && p[i].view.row == p[j].view.row ==>
      (p[j].pos.row == p[i].pos.row <==> End(p[i]) + p[j].view.span <= columns)
    ensures forall i, j ::
      (0 <= i < j < |p| && j == i + 1 && p[i].view.row == p[j].view.row && End(p[i]) + p[j].view.span > columns)
      ==> p[j].pos.row == p[i].pos.row + 1
  {
    forall i, j | 0 <= i < j < |p| && j == i + 1 && p[i].view.row == p[j].view.row
      ensures p[j].pos.row == p[i].pos.row <==> End(p[i]) + p[j].view.span <= columns
      ensures End(p[i]) + p[j].view.span > columns ==> p[j].pos.row == p[i].pos.row + 1
    {
      Adjacent(p, columns, row, rowReal, i);
    }
  }

  /** With no negative spans, every column is at least 0. */
  lemma {:induction false} ColumnNonNegative(p: seq<Placement>, columns: int, row: int, rowReal: int, k: int)
    requires PackedFrom(p, columns, row, rowReal) && InPassOrder(p)
    requires forall n :: 0 <= n < |p| ==> p[n].view.span >= 0
    requires 0 <= k < |p|
    ensures p[k].pos.column >= 0 && p[k].pos.columnSpan == p[k].view.span
    decreases k
  {
    if k > 0 {
      ColumnNonNegative(p, columns, row, rowReal, k - 1);
      Adjacent(p, columns, row, rowReal, k - 1);
    }
  }

  /** With no negative spans, a child wider than the grid starts at column 0
      of an output row of its own: the output row moves on both before and
      after it. */
  lemma OversizedAlone(p: seq<Placement>, columns: int, row: int, rowReal: int)
    requires PackedFrom(p, columns, row, rowReal) && InPassOrder(p)
    requires forall n :: 0 <= n < |p| ==> p[n].view.span >= 0
    ensures forall k :: 0 <= k < |p| && p[k].view.span > columns ==> p[k].pos.column == 0
    ensures forall i, j :: 0 <= i < j < |p| && j == i + 1 && p[j].view.span > columns ==>
      p[i].pos.row < p[j].pos.row
    ensures forall i, j :: 0 <= i < j < |p| && j == i + 1 && p[i].view.span > columns ==>
      p[i].pos.row < p[j].pos.row
  {
    forall k | 0 < k < |p| && p[k].view.span > columns
      ensures p[k].pos.column == 0
    {
      ColumnNonNegative(p, columns, row, rowReal, k - 1);
      Adjacent(p, columns, row, rowReal, k - 1);
    }
    forall i, j | 0 <= i < j < |p| && j == i + 1
      ensures p[j].view.span > columns ==> p[i].pos.row < p[j].pos.row
      ensures p[i].view.span > columns ==> p[i].pos.row < p[j].pos.row
    {
      ColumnNonNegative(p, columns, row, rowReal, i);
      Adjacent(p, columns, row, rowReal, i);
    }
  }

  /** The packing rules fix every position once the children and their order
      are fixed: two placement sequences over the same children that both
      obey the rules are the same. */
  lemma {:induction false} PackedDetermined(p: seq<Placement>, q: seq<Placement>, columns: int, row: int, rowReal: int)
    requires PackedFrom(p, columns, row, rowReal) && PackedFrom(q, columns, row, rowReal)
    requires Views(p) == Views(q)
    ensures p == q
  {
    forall n | 0 <= n < |p|
      ensures p[n].view == q[n].view
    {
      assert Views(p)[n] == Views(q)[n];
    }
    forall k | 0 <= k < |p|
      ensures p[k] == q[k]
    {
      SamePosition(p, q, columns, row, rowReal, k);
    }
  }

  lemma {:induction false} SamePosition(p: seq<Placement>, q: seq<Placement>, columns: int, row: int, rowReal: int, k: int)
    requires PackedFrom(p, columns, row, rowReal) && PackedFrom(q, columns, row, rowReal)
    requires |p| == |q| && forall n :: 0 <= n < |p| ==> p[n].view == q[n].view
    requires 0 <= k < |p|
    ensures p[k] == q[k]
    decreases k
  {
    if k > 0 {
      SamePosition(p, q, columns, row, rowReal, k - 1);
      assert Follows(p[k - 1], p[k], columns);
      assert Follows(q[k - 1], q[k], columns);
    }
  }

  /** Every declared row passed moves the output row on by at least one, so
      a child lands no higher than its declared row's offset from the start. */
  lemma {:induction false} RowAtLeastDeclared(p: seq<Placement>, columns: int, row: int, rowReal: int, k: int)
    requires PackedFrom(p, columns, row, rowReal) && InPassOrder(p)
    requires 0 <= k < |p|
    ensures p[k].pos.row >= rowReal + (p[k].view.row - row)
    decreases k
  {
    if k > 0 {
      RowAtLeastDeclared(p, columns, row, rowReal, k - 1);
      Adjacent(p, columns, row, rowReal, k - 1);
    }
  }
}
