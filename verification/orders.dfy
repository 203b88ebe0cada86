/** Ordering keys of one layout pass: an explicit order is kept, and every
    child without one gets the next number of a counter that starts at 0 and
    counts only such children. */
module Orders {
  import opened GridLayouts

  /** How many of `layouts` declare no order. */
  function Unordered(layouts: seq<GridLayout>): nat {
    if |layouts| == 0 then 0
    else (if layouts[0].order.Null? then 1 else 0) + Unordered(layouts[1..])
  }

  /** The order key of each layout, in encounter order, with the auto-order
      counter starting at `next`. */
  function AutoOrders(layouts: seq<GridLayout>, next: int): (orders: seq<int>)
    ensures |orders| == |layouts|
    ensures forall i :: 0 <= i < |layouts| && layouts[i].order.HasValue? ==> orders[i] == layouts[i].order.value
    ensures forall i :: 0 <= i < |layouts| && layouts[i].order.Null? ==> orders[i] == next + Unordered(layouts[..i])
    decreases |layouts|
  {
    if |layouts| == 0 then []
    else
      var rest := AutoOrders(layouts[1..], if layouts[0].order.Null? then next + 1 else next);
      assert forall i :: 1 <= i <= |layouts| ==> layouts[..i][1..] == layouts[1..][..i - 1];
      match layouts[0].order
      case HasValue(o) => [o] + rest
      case Null => [next] + rest
  }

  /** Counting unordered children over a longer prefix never gives less, and
      passing one unordered child adds one. */
  lemma {:induction false} UnorderedPrefixGrows(layouts: seq<GridLayout>, i: nat, j: nat)
    requires i < j <= |layouts|
    ensures Unordered(layouts[..j]) >= Unordered(layouts[..i]) + (if layouts[i].order.Null? then 1 else 0)
    decreases i
  {
    assert layouts[..j][1..] == layouts[1..][..j - 1];
    if i == 0 {
      assert layouts[..j][0] == layouts[0];
    } else {
      assert layouts[..i][1..] == layouts[1..][..i - 1];
      UnorderedPrefixGrows(layouts[1..], i - 1, j - 1);
    }
  }

  /** Auto-assigned keys are strictly increasing in encounter order, so
      children without an explicit order keep their relative order. */
  lemma AutoOrdersIncrease(layouts: seq<GridLayout>, next: int, i: nat, j: nat)
    requires i < j < |layouts|
    requires layouts[i].order.Null? && layouts[j].order.Null?
    ensures AutoOrders(layouts, next)[i] < AutoOrders(layouts, next)[j]
  {
    UnorderedPrefixGrows(layouts, i, j);
  }

  /** Auto-assigned keys are exactly 0, 1, 2, ... over the unordered children. */
  lemma {:induction false} AutoOrdersRange(layouts: seq<GridLayout>, i: nat)
    requires i < |layouts| && layouts[i].order.Null?
    ensures 0 <= AutoOrders(layouts, 0)[i] < Unordered(layouts)
  {
    assert layouts[..|layouts|] == layouts;
    if i + 1 < |layouts| {
      UnorderedPrefixGrows(layouts, i, |layouts|);
    } else {
      UnorderedPrefixGrows(layouts, i, i + 1);
    }
  }

  /** The two unordered children A then B get keys 0 and 1; an explicit
      order 5 before an unordered child leaves that child key 0. */
  lemma AutoOrderExamples()
    ensures AutoOrders([Undeclared, Undeclared], 0) == [0, 1]
    ensures AutoOrders([Undeclared.(order := HasValue(5)), Undeclared], 0) == [5, 0]
  {
    assert [Undeclared, Undeclared][..1] == [Undeclared];
    assert Unordered([Undeclared]) == 1;
    assert [Undeclared.(order := HasValue(5)), Undeclared][..1] == [Undeclared.(order := HasValue(5))];
  }
}
