/** The three-valued sort direction kept both by the catalogue and by its
    header: the empty string (no sort), 'asc' and 'desc'. */
module Direction {

  datatype SortDirection = Unsorted | Asc | Desc

  /** One click on a sort button: 'asc' becomes 'desc', every other value
      (including no sort) becomes 'asc'. */
  function Toggled(d: SortDirection): (r: SortDirection)
    ensures r != Unsorted
    ensures r == Desc <==> d == Asc
  {
    if d == Asc then Desc else Asc
  }
}
