/** The per-child declarations a responsive grid reads: the optional span for
    each of the four width tiers, an optional ordering key, and the declared row. */
module GridLayouts {

  /** A C# `int?`: either unset (`Null`) or holding a value. */
  datatype Nullable = Null | HasValue(value: int) {

    /** The held value, or `fallback` when unset, as `GetValueOrDefault(fallback)`. */
    function ValueOr(fallback: int): int {
      if HasValue? then value else fallback
    }
  }

  /** Declared column spans for the extra-small, small, medium and large tiers,
      and the explicit ordering key; every field may be unset. */
  datatype GridLayout = GridLayout(
    extraSmall: Nullable,
    small: Nullable,
    medium: Nullable,
    large: Nullable,
    order: Nullable)

  /** The layout a child has when nothing was declared for it. */
  const Undeclared := GridLayout(Null, Null, Null, Null, Null)

  /** One child of the grid as the layout pass sees it: its span/order
      declaration and its declared (logical) row. The row defaults to 0. */
  datatype Child = Child(layout: GridLayout, row: int)
}
