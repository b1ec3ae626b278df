/** Query and PagingatedQuery: the options a repository read takes. The
    filter, the two ordering keys and the include paths are expression trees in
    the source; here they are functions on the entity. The include-path list is
    a list object, so that sharing it between two queries is visible. */
module QueryModel {
  import opened Common

  class Query<E, K> {
    var orderByAscending: bool
    var trackEntities: bool
    var where: Option<E -> bool>
    var orderPrimary: Option<E -> K>
    var orderSecondary: Option<E -> K>
    var includeProperties: MutableList<E -> K>

    /** The defaults: ascending, untracked, no filter, no ordering, a new empty include list. */
    constructor ()
      ensures orderByAscending && !trackEntities
      ensures where == None && orderPrimary == None && orderSecondary == None
      ensures fresh(includeProperties) && includeProperties.Items == []
    {
      orderByAscending := true;
      trackEntities := false;
      where := None;
      orderPrimary := None;
      orderSecondary := None;
      includeProperties := new MutableList<E -> K>();
    }
  }

  /** The first row of a page: `pageNumber * resultsPerPage` in unchecked 32-bit arithmetic. */
  function StartNumber(pageNumber: int32, resultsPerPage: int32): (r: int32)
    ensures Int32Min <= pageNumber * resultsPerPage <= Int32Max ==> r == pageNumber * resultsPerPage
    ensures (r - pageNumber * resultsPerPage) % 0x1_0000_0000 == 0
  {
    WrapInt32(pageNumber * resultsPerPage)
  }

  class PagingatedQuery<E, K> {
    var orderByAscending: bool
    var trackEntities: bool
    var where: Option<E -> bool>
    var orderPrimary: Option<E -> K>
    var orderSecondary: Option<E -> K>
    var includeProperties: MutableList<E -> K>
    var startNumber: int32
    var resultsPerPage: int32

    /** The base defaults, then the page size and the page's first row. */
    constructor (pageNumber: int32, resultsPerPage: int32)
      ensures orderByAscending && !trackEntities
      ensures where == None && orderPrimary == None && orderSecondary == None
      ensures fresh(includeProperties) && includeProperties.Items == []
      ensures this.resultsPerPage == resultsPerPage && startNumber == StartNumber(pageNumber, resultsPerPage)
    {
      orderByAscending := true;
      trackEntities := false;
      where := None;
      orderPrimary := None;
      orderSecondary := None;
      includeProperties := new MutableList<E -> K>();
      this.resultsPerPage := resultsPerPage;
      startNumber := StartNumber(pageNumber, resultsPerPage);
    }

    /** The default page: the first ten rows. */
    constructor FirstPage()
      ensures orderByAscending && !trackEntities
      ensures where == None && orderPrimary == None && orderSecondary == None
      ensures fresh(includeProperties) && includeProperties.Items == []
      ensures resultsPerPage == 10 && startNumber == 0
    {
      orderByAscending := true;
      trackEntities := false;
      where := None;
      orderPrimary := None;
      orderSecondary := None;
      includeProperties := new MutableList<E -> K>();
      resultsPerPage := 10;
      startNumber := StartNumber(0, 10);
    }

    /** ToBaseQuery: a new query with the six base options; the include list
        is the same object, not a copy, and the paging is dropped. */
    method ToBaseQuery() returns (q: Query<E, K>)
      ensures fresh(q)
      ensures q.orderByAscending == orderByAscending && q.trackEntities == trackEntities
      ensures q.where == where && q.orderPrimary == orderPrimary && q.orderSecondary == orderSecondary
      ensures q.includeProperties == includeProperties
    {
      q := new Query<E, K>();
      q.orderByAscending := orderByAscending;
      q.trackEntities := trackEntities;
      q.where := where;
      q.orderPrimary := orderPrimary;
      q.orderSecondary := orderSecondary;
      q.includeProperties := includeProperties;
    }
  }

  /** Without overflow, consecutive pages are contiguous. */
  lemma PagesContiguous(pageNumber: int32, resultsPerPage: int32)
    requires 0 <= pageNumber < Int32Max && 0 <= resultsPerPage
    requires (pageNumber + 1) * resultsPerPage <= Int32Max
    ensures StartNumber((pageNumber + 1) as int32, resultsPerPage) == StartNumber(pageNumber, resultsPerPage) + resultsPerPage
  {
    assert 0 <= pageNumber * resultsPerPage <= (pageNumber + 1) * resultsPerPage;
  }

  /** Past the 32-bit range the start row wraps to a negative number. */
  lemma LargePageWraps()
    ensures StartNumber(0x1_0000, 0x8000) == Int32Min
  {
  }
}
