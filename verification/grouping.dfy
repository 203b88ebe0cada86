/** Selecting the children of one declared row and ordering them by their
    order key with a stable sort, as the pass does for each row group. */
module Grouping {

  /** One child during a pass: its position among the grid's children
      (`index`, which is also its identity), its declared row, its effective
      span and its order key. */
  datatype ChildLayout = ChildLayout(index: nat, row: int, span: int, order: int)

  /** Indices strictly increase along `s`: `s` keeps encounter order. */
  predicate EncounterOrdered(s: seq<ChildLayout>) {
    forall i, j :: 0 <= i < j < |s| ==> s[i].index < s[j].index
  }

  /** `a` goes before `b` in a stable sort by order key: smaller key, or the
      same key and met earlier. */
  predicate Before(a: ChildLayout, b: ChildLayout) {
    a.order < b.order || (a.order == b.order && a.index < b.index)
  }

  predicate SortedByOrder(s: seq<ChildLayout>) {
    forall i, j :: 0 <= i < j < |s| ==> Before(s[i], s[j])
  }

  /** The children of `ls` whose declared row is `row`, in their order in `ls`. */
  function Where(ls: seq<ChildLayout>, row: int): seq<ChildLayout>
    decreases |ls|
  {
    if |ls| == 0 then []
    else
      var rest := Where(ls[1..], row);
      if ls[0].row == row then [ls[0]] + rest else rest
  }

  /** The selection holds every child of the row as often as `ls` does and
      no other child, and keeps encounter order. */
  lemma {:induction false} WhereSpec(ls: seq<ChildLayout>, row: int)
    ensures forall v :: multiset(Where(ls, row))[v] == if v.row == row then multiset(ls)[v] else 0
    ensures EncounterOrdered(ls) ==> EncounterOrdered(Where(ls, row))
    decreases |ls|
  {
    if |ls| > 0 {
      WhereSpec(ls[1..], row);
      WhereStep(ls, row, Where(ls[1..], row));
    }
  }

  /** One step of `Where`: what the first child adds to the rest's group. */
  lemma WhereStep(ls: seq<ChildLayout>, row: int, rest: seq<ChildLayout>)
    requires |ls| > 0
    requires forall v :: multiset(rest)[v] == if v.row == row then multiset(ls[1..])[v] else 0
    requires EncounterOrdered(ls[1..]) ==> EncounterOrdered(rest)
    ensures var g := if ls[0].row == row then [ls[0]] + rest else rest;
      && (forall v :: multiset(g)[v] == if v.row == row then multiset(ls)[v] else 0)
      && (EncounterOrdered(ls) ==> EncounterOrdered(g))
  {
    assert ls == [ls[0]] + ls[1..];
    assert multiset(ls) == multiset{ls[0]} + multiset(ls[1..]);
    if EncounterOrdered(ls) {
      assert EncounterOrdered(ls[1..]) by {
        forall i, j | 0 <= i < j < |ls| - 1
          ensures ls[1..][i].index < ls[1..][j].index
        {
          assert ls[1..][i] == ls[i + 1] && ls[1..][j] == ls[j + 1];
        }
      }
      if ls[0].row == row {
        assert forall v :: v in rest ==> v in multiset(ls[1..]);
        FirstBeforeRest(ls, rest);
      }
    }
  }

  /** Putting the first child of an encounter-ordered sequence in front of a
      selection of the others keeps encounter order. */
  lemma FirstBeforeRest(ls: seq<ChildLayout>, rest: seq<ChildLayout>)
    requires |ls| > 0 && EncounterOrdered(ls)
    requires forall v :: v in rest ==> v in ls[1..]
    requires EncounterOrdered(rest)
    ensures EncounterOrdered([ls[0]] + rest)
  {
    var g := [ls[0]] + rest;
    forall i, j | 0 <= i < j < |g|
      ensures g[i].index < g[j].index
    {
      assert g[j] == rest[j - 1];
      if i == 0 {
        assert g[j] in ls[1..];
        var m :| 0 <= m < |ls| - 1 && ls[1..][m] == g[j];
        assert ls[m + 1] == g[j];
      } else {
        assert g[i] == rest[i - 1];
      }
    }
  }

  /** Inserts `x` before the first element whose key is not below `x`'s. */
  function Insert(x: ChildLayout, s: seq<ChildLayout>): seq<ChildLayout>
    decreases |s|
  {
    if |s| == 0 then [x]
    else if x.order <= s[0].order then [x] + s
    else [s[0]] + Insert(x, s[1..])
  }

  /** Inserting adds exactly `x`, and keeps a sorted sequence sorted when
      `x` was met before all of its elements. */
  lemma {:induction false} InsertSpec(x: ChildLayout, s: seq<ChildLayout>)
    ensures multiset(Insert(x, s)) == multiset(s) + multiset{x}
    ensures SortedByOrder(s) && (forall v :: v in s ==> x.index < v.index) ==> SortedByOrder(Insert(x, s))
    decreases |s|
  {
    if |s| > 0 {
      if x.order <= s[0].order {
        InsertFront(x, s);
      } else {
        assert s == [s[0]] + s[1..];
        InsertSpec(x, s[1..]);
        InsertBehind(x, s, Insert(x, s[1..]));
      }
    }
  }

  lemma InsertFront(x: ChildLayout, s: seq<ChildLayout>)
    requires |s| > 0 && x.order <= s[0].order
    ensures SortedByOrder(s) && (forall v :: v in s ==> x.index < v.index) ==> SortedByOrder([x] + s)
  {
    if SortedByOrder(s) && (forall v :: v in s ==> x.index < v.index) {
      var g := [x] + s;
      forall i, j | 0 <= i < j < |g|
        ensures Before(g[i], g[j])
      {
        assert g[j] == s[j - 1];
        if i == 0 {
          if j > 1 {
            assert Before(s[0], s[j - 1]);
          }
          assert s[j - 1] in s;
        } else {
          assert g[i] == s[i - 1];
        }
      }
    }
  }

  lemma InsertBehind(x: ChildLayout, s: seq<ChildLayout>, r': seq<ChildLayout>)
    requires |s| > 0 && x.order > s[0].order
    requires multiset(r') == multiset(s[1..]) + multiset{x}
    requires SortedByOrder(s[1..]) && (forall v :: v in s[1..] ==> x.index < v.index) ==> SortedByOrder(r')
    ensures SortedByOrder(s) && (forall v :: v in s ==> x.index < v.index) ==> SortedByOrder([s[0]] + r')
  {
    if SortedByOrder(s) && (forall v :: v in s ==> x.index < v.index) {
      assert SortedByOrder(s[1..]) by {
        forall i, j | 0 <= i < j < |s| - 1
          ensures Before(s[1..][i], s[1..][j])
        {
          assert s[1..][i] == s[i + 1] && s[1..][j] == s[j + 1];
        }
      }
      assert forall v :: v in s[1..] ==> v in s;
      var g := [s[0]] + r';
      forall i, j | 0 <= i < j < |g|
        ensures Before(g[i], g[j])
      {
        assert g[j] == r'[j - 1];
        if i == 0 {
          assert r'[j - 1] in multiset(r');
          if r'[j - 1] != x {
            assert r'[j - 1] in s[1..];
            var m :| 0 <= m < |s| - 1 && s[1..][m] == r'[j - 1];
            assert s[m + 1] == r'[j - 1];
          }
        } else {
          assert g[i] == r'[i - 1];
        }
      }
    }
  }

  /** Stable sort by order key (insertion sort). */
  function OrderBy(s: seq<ChildLayout>): seq<ChildLayout>
    decreases |s|
  {
    if |s| == 0 then [] else Insert(s[0], OrderBy(s[1..]))
  }

  /** Sorting permutes its input and, on children in encounter order, sorts
      them by key with ties in encounter order. */
  lemma {:induction false} OrderBySpec(s: seq<ChildLayout>)
    ensures multiset(OrderBy(s)) == multiset(s)
    ensures EncounterOrdered(s) ==> SortedByOrder(OrderBy(s))
    decreases |s|
  {
    if |s| > 0 {
      assert s == [s[0]] + s[1..];
      OrderBySpec(s[1..]);
      OrderByStep(s, OrderBy(s[1..]));
      InsertSpec(s[0], OrderBy(s[1..]));
    }
  }

  lemma OrderByStep(s: seq<ChildLayout>, sorted: seq<ChildLayout>)
    requires |s| > 0
    requires multiset(sorted) == multiset(s[1..])
    requires EncounterOrdered(s[1..]) ==> SortedByOrder(sorted)
    ensures EncounterOrdered(s) ==> SortedByOrder(sorted) && forall v :: v in sorted ==> s[0].index < v.index
  {
    if EncounterOrdered(s) {
      assert EncounterOrdered(s[1..]) by {
        forall i, j | 0 <= i < j < |s| - 1
          ensures s[1..][i].index < s[1..][j].index
        {
          assert s[1..][i] == s[i + 1] && s[1..][j] == s[j + 1];
        }
      }
      forall v | v in sorted
        ensures s[0].index < v.index
      {
        assert v in multiset(s[1..]);
        var m :| 0 <= m < |s| - 1 && s[1..][m] == v;
        assert s[m + 1] == v;
      }
    }
  }

  /** The group of one declared row: its children, sorted by key, ties in
      encounter order. */
  function RowGroup(ls: seq<ChildLayout>, row: int): seq<ChildLayout> {
    OrderBy(Where(ls, row))
  }

  /** A row group holds exactly the children of its declared row, each as
      often as in `ls`, sorted by key with ties in encounter order. */
  lemma RowGroupSpec(ls: seq<ChildLayout>, row: int)
    ensures forall v :: multiset(RowGroup(ls, row))[v] == if v.row == row then multiset(ls)[v] else 0
    ensures EncounterOrdered(ls) ==> SortedByOrder(RowGroup(ls, row))
  {
    WhereSpec(ls, row);
    OrderBySpec(Where(ls, row));
  }

  /** Sorting by key with ties in encounter order has only one possible
      result: any two sorted arrangements of the same children are equal,
      so the group is what every stable sort by key would give. */
  lemma {:induction false} SortedIsUnique(a: seq<ChildLayout>, b: seq<ChildLayout>)
    requires multiset(a) == multiset(b)
    requires SortedByOrder(a) && SortedByOrder(b)
    ensures a == b
    decreases |a|
  {
    if |a| > 0 {
      assert a[0] in multiset(b) && b[0] in multiset(a);
      assert a[0] == b[0];
      assert a == [a[0]] + a[1..];
      assert b == [b[0]] + b[1..];
      assert multiset(a[1..]) == multiset(a) - multiset{a[0]};
      assert multiset(b[1..]) == multiset(b) - multiset{b[0]};
      SortedIsUnique(a[1..], b[1..]);
    }
  }

  /** The row groups of declared rows `lo` .. `hi`, one after the other: the
      order in which the pass visits children. */
  function Grouped(ls: seq<ChildLayout>, lo: int, hi: int): seq<ChildLayout>
    decreases hi - lo + 1
  {
    if lo > hi then [] else RowGroup(ls, lo) + Grouped(ls, lo + 1, hi)
  }

  /** The groups of declared rows `lo` .. `hi` hold exactly the children of
      those rows: each as often as in `ls`, and no other. */
  lemma {:induction false} GroupedCounts(ls: seq<ChildLayout>, lo: int, hi: int)
    ensures forall v :: multiset(Grouped(ls, lo, hi))[v] == if lo <= v.row <= hi then multiset(ls)[v] else 0
    decreases hi - lo + 1
  {
    if lo <= hi {
      RowGroupSpec(ls, lo);
      GroupedCounts(ls, lo + 1, hi);
      assert multiset(Grouped(ls, lo, hi)) == multiset(RowGroup(ls, lo)) + multiset(Grouped(ls, lo + 1, hi));
    }
  }
}
