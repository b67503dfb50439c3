/** The column-header sort control both tables share: a column and a
    direction, toggled by clicking a header, and its URL spelling. */
module SortToggle {
  import opened Wrappers

  datatype Order = Asc | Desc

  datatype Sort<C> = Sort(column: C, order: Order)

  function Flip(o: Order): (r: Order)
    ensures r != o
  {
    if o == Asc then Desc else Asc
  }

  /** `handleSort(newSortBy)`: the current column flips its direction, any
      other column becomes current in ascending order. */
  function Toggle<C(==)>(s: Sort<C>, column: C): (r: Sort<C>)
    ensures r.column == column
    ensures s.column == column ==> r.order != s.order
    ensures s.column != column ==> r.order == Asc
  {
    if s.column == column then Sort(column, Flip(s.order)) else Sort(column, Asc)
  }

  /** Toggling always changes the sort, so it always triggers whatever the
      table does on a sort change. */
  lemma ToggleChanges<C>(s: Sort<C>, column: C)
    ensures Toggle(s, column) != s
  {
  }

  /** Clicking the current column twice restores its direction. */
  lemma ToggleTwice<C>(s: Sort<C>)
    ensures Toggle(Toggle(s, s.column), s.column) == s
  {
  }

  /** `getSortIcon(column)`. */
  function Icon<C(==)>(s: Sort<C>, column: C): (r: string)
    ensures s.column != column <==> r == "⇅"
    ensures s.column == column ==> (r == "↑" <==> s.order == Asc)
    ensures s.column == column && s.order == Desc ==> r == "↓"
  {
    if s.column != column then "⇅" else if s.order == Asc then "↑" else "↓"
  }

  function OrderName(o: Order): string {
    if o == Asc then "asc" else "desc"
  }

  /** `sortOrder` read from the URL: only `'asc'` and `'desc'` are accepted. */
  function ParseOrder(s: string): (r: Option<Order>)
    ensures r == Some(Asc) <==> s == "asc"
    ensures r == Some(Desc) <==> s == "desc"
  {
    if s == "asc" then Some(Asc) else if s == "desc" then Some(Desc) else None
  }

  lemma ParseOrderName(o: Order)
    ensures ParseOrder(OrderName(o)) == Some(o)
  {
  }
}
