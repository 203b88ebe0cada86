/** Classifying a container width into one of four ordinal tiers
    (1 extra-small, 2 small, 3 medium, 4 large) by three thresholds. */
module Breakpoints {

  /** The upper widths of the extra-small, small and medium tiers. */
  datatype Thresholds = Thresholds(extraSmall: real, small: real, medium: real)

  /** The thresholds every grid starts with. */
  const DefaultThresholds := Thresholds(400.0, 800.0, 1200.0)

  /** The tier of `width`: the first threshold, in tier order, that the width
      does not exceed decides; a width above all three is tier 4. */
  function LayoutType(width: real, t: Thresholds): (tier: int)
    ensures 1 <= tier <= 4
    ensures tier == 1 <==> width <= t.extraSmall
    ensures tier == 2 <==> t.extraSmall < width <= t.small
    ensures tier == 3 <==> t.extraSmall < width && t.small < width <= t.medium
    ensures tier == 4 <==> t.extraSmall < width && t.small < width && t.medium < width
  {
    if width <= t.extraSmall then 1
    else if width <= t.small then 2
    else if width <= t.medium then 3
    else 4
  }

  /** The threshold that closes tier `k` from above; tier 4 has none. */
  function UpperBound(t: Thresholds, k: int): real
    requires 1 <= k <= 3
  {
    if k == 1 then t.extraSmall else if k == 2 then t.small else t.medium
  }

  /** Whether `width` lies within the reach of tier `k`'s threshold. */
  predicate Within(width: real, t: Thresholds, k: int) {
    k == 4 || (1 <= k <= 3 && width <= UpperBound(t, k))
  }

  predicate Ascending(t: Thresholds) {
    t.extraSmall <= t.small <= t.medium
  }

  /** Number of thresholds the width exceeds. */
  function Exceeded(width: real, t: Thresholds): nat {
    (if width > t.extraSmall then 1 else 0)
    + (if width > t.small then 1 else 0)
    + (if width > t.medium then 1 else 0)
  }

  /** For any thresholds, the tier is the least tier whose threshold the width
      does not exceed. */
  lemma LayoutTypeIsLeastWithin(width: real, t: Thresholds)
    ensures Within(width, t, LayoutType(width, t))
    ensures forall k :: 1 <= k < LayoutType(width, t) ==> !Within(width, t, k)
  {
  }

  /** With ascending thresholds the tiers are the four consecutive bands, and
      the tier is one more than the number of thresholds the width exceeds. */
  lemma AscendingBands(width: real, t: Thresholds)
    requires Ascending(t)
    ensures LayoutType(width, t) == 1 + Exceeded(width, t)
    ensures LayoutType(width, t) == 3 <==> t.small < width <= t.medium
    ensures LayoutType(width, t) == 4 <==> t.medium < width
  {
  }

  /** A wider container never gets a lower tier, whatever the order of the
      thresholds (the least non-exceeded threshold can only move up). */
  lemma LayoutTypeMonotone(narrow: real, wide: real, t: Thresholds)
    requires narrow <= wide
    ensures LayoutType(narrow, t) <= LayoutType(wide, t)
  {
  }

  /** Out-of-order thresholds are not rejected: they make a tier unreachable. */
  lemma SmallUnreachableWhenBelowExtraSmall(width: real, t: Thresholds)
    requires t.small <= t.extraSmall
    ensures LayoutType(width, t) != 2
  {
  }

  /** The boundary widths of the default thresholds. */
  lemma DefaultBoundaries()
    ensures LayoutType(399.0, DefaultThresholds) == 1
    ensures LayoutType(400.0, DefaultThresholds) == 1
    ensures LayoutType(401.0, DefaultThresholds) == 2
    ensures LayoutType(800.0, DefaultThresholds) == 2
    ensures LayoutType(801.0, DefaultThresholds) == 3
    ensures LayoutType(1200.0, DefaultThresholds) == 3
    ensures LayoutType(1201.0, DefaultThresholds) == 4
  {
  }
}
