/**
  The four pieces of state the address-book page holds (search query, sort
  field, sort direction, company filter) and the handlers that change them.
 */
module Controls {

  /** `'name' | 'email' | 'company'` */
  datatype SortField = ByName | ByEmail | ByCompany

  /** `'asc' | 'desc'` */
  datatype SortDirection = Asc | Desc

  /** The company-filter value that means "no filtering". */
  const AllCompanies: string := "all"

  /** `prev === 'asc' ? 'desc' : 'asc'` */
  function Flip(d: SortDirection): (r: SortDirection)
    ensures r != d
  {
    if d == Asc then Desc else Asc
  }

  /** Flipping twice restores the direction. */
  lemma FlipTwice(d: SortDirection)
    ensures Flip(Flip(d)) == d
  {
  }

  class ViewControls {
    var searchQuery: string
    var sortField: SortField
    var sortDirection: SortDirection
    var companyFilter: string

    /** The initial state: empty query, sorted by name ascending, every company shown. */
    constructor ()
      ensures searchQuery == "" && companyFilter == AllCompanies
      ensures sortField == ByName && sortDirection == Asc
    {
      searchQuery := "";
      sortField := ByName;
      sortDirection := Asc;
      companyFilter := AllCompanies;
    }

    /** `handleSearchChange`: the debounced search text replaces the query. */
    method HandleSearchChange(value: string)
      modifies this`searchQuery
      ensures searchQuery == value
    {
      searchQuery := value;
    }

    /** The company drop-down sets the filter directly. */
    method SetCompanyFilter(company: string)
      modifies this`companyFilter
      ensures companyFilter == company
    {
      companyFilter := company;
    }

    /**
      `handleSortChange`: choosing the active field flips the direction and
      keeps the field; choosing another field selects it, ascending.
     */
    method HandleSortChange(field: SortField)
      modifies this`sortField, this`sortDirection
      ensures sortField == field
      ensures field == old(sortField) ==> sortDirection == Flip(old(sortDirection))
      ensures field != old(sortField) ==> sortDirection == Asc
    {
      if field == sortField {
        sortDirection := Flip(sortDirection);
      } else {
        sortField := field;
        sortDirection := Asc;
      }
    }
  }

  /**
    Two clicks on the same sort button: on the active field the original
    direction comes back; on another field it ends selected and descending.
   */
  method HandleSortChangeTwice(c: ViewControls, field: SortField)
    modifies c
    ensures c.sortField == field
    ensures field == old(c.sortField) ==> c.sortDirection == old(c.sortDirection)
    ensures field != old(c.sortField) ==> c.sortDirection == Desc
    ensures c.searchQuery == old(c.searchQuery) && c.companyFilter == old(c.companyFilter)
  {
    c.HandleSortChange(field);
    c.HandleSortChange(field);
    FlipTwice(old(c.sortDirection));
  }
}
