/** The effective column span of a child at a width tier: declared spans
    cascade upwards, and only a positive declaration at a higher tier
    overrides the span of the tiers below it. */
module Spans {
  import opened GridLayouts

  /** The span declared for tier `k` (1 extra-small .. 4 large). */
  function Declared(layout: GridLayout, k: int): Nullable {
    if k == 1 then layout.extraSmall
    else if k == 2 then layout.small
    else if k == 3 then layout.medium
    else if k == 4 then layout.large
    else Null
  }

  /** Tier `k` (small, medium or large) replaces the span below it: its span
      is declared and positive. */
  predicate Overrides(layout: GridLayout, k: int) {
    2 <= k <= 4 && Declared(layout, k).HasValue? && Declared(layout, k).value > 0
  }

  /** The span of the extra-small tier, 1 when undeclared. Any declared value
      counts here, including zero and negative ones. */
  function BaseSpan(layout: GridLayout): int {
    layout.extraSmall.ValueOr(1)
  }

  /** Reference definition of the cascade, tier by tier from the top: a tier
      that overrides gives its own span, any other tier inherits from the
      tier below, and tiers above 4 behave as tier 4. */
  function CascadedSpan(layout: GridLayout, tier: int): int
    decreases tier
  {
    if tier <= 1 then BaseSpan(layout)
    else if tier > 4 then CascadedSpan(layout, 4)
    else if Overrides(layout, tier) then Declared(layout, tier).value
    else CascadedSpan(layout, tier - 1)
  }

  /** The grid's span resolution: start from the extra-small span and let each
      tier the width has reached replace it with a positive declaration. */
  function ColumnSpan(layout: GridLayout, tier: int): (cs: int)
    ensures cs == CascadedSpan(layout, tier)
    ensures cs == BaseSpan(layout) || cs > 0
  {
    var cs := layout.extraSmall.ValueOr(1);
    var cs := if tier >= 2 && layout.small.ValueOr(0) > 0 then layout.small.value else cs;
    var cs := if tier >= 3 && layout.medium.ValueOr(0) > 0 then layout.medium.value else cs;
    var cs := if tier >= 4 && layout.large.ValueOr(0) > 0 then layout.large.value else cs;
    cs
  }

  /** The span at a tier of 2 or more is the declaration of the highest
      overriding tier not above it. */
  lemma {:induction false} HighestOverrideWins(layout: GridLayout, tier: int, k: int)
    requires 2 <= k <= tier && k <= 4 && Overrides(layout, k)
    requires forall j :: k < j <= tier && j <= 4 ==> !Overrides(layout, j)
    ensures ColumnSpan(layout, tier) == Declared(layout, k).value
    decreases tier
  {
    if tier > 4 {
      HighestOverrideWins(layout, 4, k);
    } else if tier > k {
      HighestOverrideWins(layout, tier - 1, k);
    }
  }

  /** With no overriding tier at or below `tier`, the extra-small span (or 1)
      is used: absent, zero and negative spans never override. */
  lemma {:induction false} NoOverrideFallsBack(layout: GridLayout, tier: int)
    requires forall j :: 2 <= j <= tier && j <= 4 ==> !Overrides(layout, j)
    ensures ColumnSpan(layout, tier) == BaseSpan(layout)
    decreases tier
  {
    if tier > 4 {
      NoOverrideFallsBack(layout, 4);
    } else if tier > 1 {
      NoOverrideFallsBack(layout, tier - 1);
    }
  }

  /** The span is either the extra-small span (or its default 1) or the
      positive span declared for some tier from small up to the current one. */
  lemma {:induction false} SpanComesFromReachedTier(layout: GridLayout, tier: int)
    ensures ColumnSpan(layout, tier) == BaseSpan(layout)
         || exists k :: 2 <= k <= tier && Overrides(layout, k) && ColumnSpan(layout, tier) == Declared(layout, k).value
    decreases tier
  {
    if tier > 4 {
      SpanComesFromReachedTier(layout, 4);
    } else if tier > 1 && !Overrides(layout, tier) {
      SpanComesFromReachedTier(layout, tier - 1);
    }
  }

  /** A child declaring extra-small 2, small 0 and medium 4 spans 2 columns at
      the two narrow tiers and 4 at the two wide ones. */
  lemma CascadeExample()
    ensures var l := GridLayout(HasValue(2), HasValue(0), HasValue(4), Null, Null);
      ColumnSpan(l, 1) == 2 && ColumnSpan(l, 2) == 2 && ColumnSpan(l, 3) == 4 && ColumnSpan(l, 4) == 4
  {
  }

  /** An undeclared child spans one column at every tier. */
  lemma UndeclaredSpansOne(tier: int)
    ensures ColumnSpan(Undeclared, tier) == 1
  {
    NoOverrideFallsBack(Undeclared, tier);
  }
}
