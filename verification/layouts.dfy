/** The static layout catalog: for every layout id, how many photos the strip
    holds, its size, how the photo slots are arranged, and the gap between
    them. Pure data. */
module Layouts {
  import opened Common

  datatype Arrangement = Vertical | Horizontal | Grid

  datatype Unit = Px | In

  /** One catalog entry. `gap` is optional; every other field is always set. */
  datatype Layout = Layout(
    maxPhotos: int,
    width: real,
    height: real,
    arrangement: Arrangement,
    unit: Unit,
    gap: Option<real>)

  /** The three live entries of the catalog, keyed by layout id. */
  const Catalog: map<int, Layout> := map[
    1 := Layout(4, 3.0, 9.0, Vertical, In, Some(0.1)),
    2 := Layout(3, 3.0, 9.0, Vertical, In, None),
    3 := Layout(2, 3.0, 9.0, Vertical, In, Some(0.1))
  ]

  /** The layout the application starts with and returns to on reset. */
  const DefaultLayoutId: int := 1

  /** Capacity of a catalog layout, for ids the catalog knows. */
  function MaxPhotos(id: int): (n: int)
    requires id in Catalog
    ensures 2 <= n <= 4
  {
    Catalog[id].maxPhotos
  }
}
