/** The sort order a table asks for when a column header is pressed. */
module SortDirections {
  import opened Types

  datatype SortDirection = Ascending | Descending

  /** The column a table is sorted by and in which direction. */
  datatype SortDescriptor = SortDescriptor(column: Key, direction: SortDirection)

  /** `OPPOSITE_SORT_DIRECTION`: each direction maps to the other one. */
  function Opposite(d: SortDirection): (r: SortDirection)
    ensures r != d
  {
    match d
    case Ascending => Descending
    case Descending => Ascending
  }

  lemma OppositeInvolution(d: SortDirection)
    ensures Opposite(Opposite(d)) == d
  {
  }

  /**
   * `sort(columnKey)`: the descriptor handed to `onSortChange`. Pressing the column
   * the table is sorted by flips the direction; any other column, or a table with
   * no sort descriptor, starts ascending.
   */
  function SortRequest(current: Option<SortDescriptor>, columnKey: Key): (r: SortDescriptor)
    ensures r.column == columnKey
    ensures current.Some? && current.value.column == columnKey ==> r.direction != current.value.direction
    ensures (current.None? || current.value.column != columnKey) ==> r.direction == Ascending
  {
    var direction :=
      if current.Some? && current.value.column == columnKey then Opposite(current.value.direction)
      else Ascending;
    SortDescriptor(columnKey, direction)
  }

  /** Pressing the same header twice, with the parent accepting each request, restores the order. */
  lemma SortTwiceRestores(d: SortDescriptor)
    ensures SortRequest(Some(SortRequest(Some(d), d.column)), d.column) == d
  {
    OppositeInvolution(d.direction);
  }

  /** Pressing a header of an unsorted column, then pressing it again, sorts it descending. */
  lemma SortNewColumnThenToggle(current: Option<SortDescriptor>, columnKey: Key)
    requires current.None? || current.value.column != columnKey
    ensures SortRequest(current, columnKey) == SortDescriptor(columnKey, Ascending)
    ensures SortRequest(Some(SortRequest(current, columnKey)), columnKey) == SortDescriptor(columnKey, Descending)
  {
  }
}
