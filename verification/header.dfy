/** The catalogue header: one cell per column, sort buttons on the price and
    title columns, and a local pair of sort directions that only drive the
    button indicators. A click toggles the local direction of its column and
    then invokes the catalogue's callback for that column. */
module Header {
  import opened Types
  import opened Direction

  /** The two callbacks the catalogue hands to its header. */
  datatype HeaderCallback = OnSortPrice | OnSortTitle

  /** The header's local state. */
  datatype HeaderState = HeaderState(priceDirection: SortDirection, titleDirection: SortDirection)

  const InitialHeader: HeaderState := HeaderState(Unsorted, Unsorted)

  /** The header's local state after a click on `button`, as the component
      does it: only the clicked column's direction moves. */
  function Clicked(h: HeaderState, button: HeaderCallback): (r: HeaderState)
    ensures button == OnSortPrice ==> r.titleDirection == h.titleDirection && r.priceDirection != Unsorted
    ensures button == OnSortTitle ==> r.priceDirection == h.priceDirection && r.titleDirection != Unsorted
    ensures button == OnSortPrice ==> r.priceDirection == Toggled(h.priceDirection)
    ensures button == OnSortTitle ==> r.titleDirection == Toggled(h.titleDirection)
  {
    match button
    case OnSortPrice => h.(priceDirection := Toggled(h.priceDirection))
    case OnSortTitle => h.(titleDirection := Toggled(h.titleDirection))
  }

  /** The local state after a run of clicks, first click first. */
  function ClickRun(h: HeaderState, clicks: seq<HeaderCallback>): HeaderState
    decreases |clicks|
  {
    if clicks == [] then h else ClickRun(Clicked(h, clicks[0]), clicks[1..])
  }

  /** The corrected header click: toggling one direction clears the other,
      as the catalogue does with its own pair of directions. */
  function ClickedClearingOther(h: HeaderState, button: HeaderCallback): (r: HeaderState)
    ensures r.priceDirection == Unsorted || r.titleDirection == Unsorted
    ensures button == OnSortPrice ==> r.priceDirection == Toggled(h.priceDirection)
    ensures button == OnSortTitle ==> r.titleDirection == Toggled(h.titleDirection)
  {
    match button
    case OnSortPrice => HeaderState(Toggled(h.priceDirection), Unsorted)
    case OnSortTitle => HeaderState(Unsorted, Toggled(h.titleDirection))
  }

  function ClickRunClearingOther(h: HeaderState, clicks: seq<HeaderCallback>): HeaderState
    decreases |clicks|
  {
    if clicks == [] then h else ClickRunClearingOther(ClickedClearingOther(h, clicks[0]), clicks[1..])
  }

  /** Label of the price sort button. */
  function PriceIndicator(d: SortDirection): (indicator: string)
    ensures indicator == "▲" <==> d == Asc
    ensures indicator == "▼" <==> d != Asc
  {
    if d == Asc then "▲" else "▼"
  }

  /** Label of the title sort button. */
  function TitleIndicator(d: SortDirection): (indicator: string)
    ensures indicator == "A-Z" <==> d == Asc
    ensures indicator == "Z-A" <==> d != Asc
  {
    if d == Asc then "A-Z" else "Z-A"
  }

  /** A rendered header cell: its caption and, on the price and title
      columns, the label of its sort button. */
  datatype HeaderCell = HeaderCell(caption: string, sortButton: Option<string>)

  const BasketCaption: string := "Add to basket"

  function ColumnCell(c: Column, h: HeaderState): HeaderCell
  {
    HeaderCell(c.caption,
      if c.key == "price" then Some(PriceIndicator(h.priceDirection))
      else if c.key == "title" then Some(TitleIndicator(h.titleDirection))
      else None)
  }

  /** One cell per column, in column order. */
  function ColumnCells(columns: seq<Column>, h: HeaderState): (cells: seq<HeaderCell>)
    ensures |cells| == |columns|
    ensures forall i :: 0 <= i < |columns| ==> cells[i].caption == columns[i].caption
    ensures forall i :: 0 <= i < |columns| ==>
      (cells[i].sortButton.Some? <==> columns[i].key == "price" || columns[i].key == "title")
    ensures forall i :: 0 <= i < |columns| && columns[i].key == "price" ==>
      cells[i].sortButton == Some(PriceIndicator(h.priceDirection))
    ensures forall i :: 0 <= i < |columns| && columns[i].key == "title" ==>
      cells[i].sortButton == Some(TitleIndicator(h.titleDirection))
  {
    if columns == [] then []
    else ColumnCells(columns[..|columns| - 1], h) + [ColumnCell(columns[|columns| - 1], h)]
  }

  /** The whole header row: the column cells followed by the basket cell. */
  function HeaderCells(columns: seq<Column>, h: HeaderState): (cells: seq<HeaderCell>)
    ensures |cells| == |columns| + 1
    ensures cells[..|columns|] == ColumnCells(columns, h)
    ensures cells[|columns|] == HeaderCell(BasketCaption, None)
  {
    ColumnCells(columns, h) + [HeaderCell(BasketCaption, None)]
  }

  /** The header component with its two local direction fields. */
  class CatalogueHeader {
    const columns: seq<Column>
    var priceSortDirection: SortDirection
    var titleSortDirection: SortDirection

    ghost function State(): HeaderState
      reads this
    {
      HeaderState(priceSortDirection, titleSortDirection)
    }

    constructor (columns: seq<Column>)
      ensures this.columns == columns
      ensures State() == InitialHeader
    {
      this.columns := columns;
      priceSortDirection := Unsorted;
      titleSortDirection := Unsorted;
    }

    /** Click on the price button; `calls` lists the callbacks invoked. */
    method HandleSortPrice() returns (calls: seq<HeaderCallback>)
      modifies this
      ensures priceSortDirection == Toggled(old(priceSortDirection))
      ensures titleSortDirection == old(titleSortDirection)
      ensures State() == Clicked(old(State()), OnSortPrice)
      ensures calls == [OnSortPrice]
    {
      if priceSortDirection == Asc {
        priceSortDirection := Desc;
      } else {
        priceSortDirection := Asc;
      }
      calls := [OnSortPrice];
    }

    /** Click on the title button; `calls` lists the callbacks invoked. */
    method HandleSortTitle() returns (calls: seq<HeaderCallback>)
      modifies this
      ensures titleSortDirection == Toggled(old(titleSortDirection))
      ensures priceSortDirection == old(priceSortDirection)
      ensures State() == Clicked(old(State()), OnSortTitle)
      ensures calls == [OnSortTitle]
    {
      if titleSortDirection == Asc {
        titleSortDirection := Desc;
      } else {
        titleSortDirection := Asc;
      }
      calls := [OnSortTitle];
    }

    /** The rendered header row for the current local state. */
    function Cells(): (cells: seq<HeaderCell>)
      reads this
      ensures |cells| == |columns| + 1
      ensures forall i :: 0 <= i < |columns| ==> cells[i].caption == columns[i].caption
      ensures forall i :: 0 <= i < |columns| ==>
        (cells[i].sortButton.Some? <==> columns[i].key == "price" || columns[i].key == "title")
      ensures forall i :: 0 <= i < |columns| && columns[i].key == "price" ==>
        cells[i].sortButton == Some(PriceIndicator(priceSortDirection))
      ensures forall i :: 0 <= i < |columns| && columns[i].key == "title" ==>
        cells[i].sortButton == Some(TitleIndicator(titleSortDirection))
      ensures cells[|columns|] == HeaderCell(BasketCaption, None)
    {
      HeaderCells(columns, HeaderState(priceSortDirection, titleSortDirection))
    }
  }
}
